/** The API controller base class `Apis`: the authentication routing of
    `_initialize`, the signed-request gate of `filterParameters` and
    `defendRepeat` over the shared replay cache, and the constructor's
    before-action loop. Every step returns a `Flow`; `Halt` stands for the
    exception `result` throws. */
module ApiController {
  import opened Wrappers
  import opened PhpStrings
  import opened Canonicalizer
  import opened ResponseEnvelope
  import opened RequestGate
  import opened ActionHooks

  /** The controller's configurable properties. */
  datatype Config = Config(
    noNeedLogin: seq<string>,
    noNeedRight: seq<string>,
    checkParameters: bool,
    signatureStr: string,
    signExpire: int,
    beforeActionList: seq<HookEntry>)

  const DefaultConfig := Config([], [], true, "signature", DefaultSignExpire, [])

  /** The `Auth` service as the controller consults it. */
  datatype AuthService = AuthService(
    matches: (seq<string>, string) -> bool,   // match(list) once the request URI is the path
    isLogin: Option<string> -> bool,          // isLogin() after init(token)
    check: string -> bool)                    // check(path)

  /** What the controller reads from the request: names of controller and
      action, the token, the parameters and the server's request time. */
  datatype Request = Request(
    controller: string,
    action: string,
    token: Option<string>,
    params: seq<Param>,
    requestTime: int)

  const PleaseLogin := "Please login first"
  const NoPermission := "You have no permission"

  /** The permission path: the lower-cased controller with dots turned
      into slashes, a slash, and the lower-cased action. */
  function Path(controller: string, action: string): (path: string)
    ensures |path| == |controller| + 1 + |action|
    ensures path[|controller|] == '/'
    ensures path[..|controller|] == DotsToSlashes(Lower(controller))
    ensures path[|controller| + 1..] == Lower(action)
    ensures '.' !in path[..|controller|]
    ensures forall k :: 0 <= k < |path| ==> !IsUpperAscii(path[k])
  {
    var p := DotsToSlashes(Lower(controller)) + "/" + Lower(action);
    assert p[..|controller|] == DotsToSlashes(Lower(controller));
    assert p[|controller| + 1..] == Lower(action);
    p
  }

  /** A gate outcome as the controller acts on it: a rejection becomes the
      `error` response with the rejection's code. */
  function GateFlow(o: GateOutcome, requestTime: int): (f: Flow)
    ensures o == Accepted <==> f == Continue
    ensures o.Rejected? ==> f.Halt? && f.response.body.code == o.code && f.response.status == Int(StatusFor(o.code))
  {
    match o
    case Accepted => Continue
    case Rejected(code, msg) => Halt(Error(requestTime, msg, None, code))
  }

  predicate NeedsLogin(cfg: Config, auth: AuthService, req: Request) {
    !auth.matches(cfg.noNeedLogin, Path(req.controller, req.action))
  }

  /** Logged in, and either exempt from the permission check or passing it. */
  predicate Authorized(cfg: Config, auth: AuthService, req: Request) {
    var path := Path(req.controller, req.action);
    auth.isLogin(req.token) && (auth.matches(cfg.noNeedRight, path) || auth.check(path))
  }

  /** The signed-request gate runs exactly on this path. */
  predicate GateRuns(cfg: Config, auth: AuthService, req: Request) {
    NeedsLogin(cfg, auth, req) && Authorized(cfg, auth, req) && cfg.checkParameters
  }

  /** The routing of `_initialize`: actions matched by `noNeedLogin` pass
      untouched; others need a login (else 401), then the permission check
      unless matched by `noNeedRight` (else 403), and only then the gate,
      when `checkParameters` is on. */
  function Authorize(cfg: Config, auth: AuthService, req: Request, now: int, prims: Primitives,
                     entries: map<string, int>): (r: (Flow, map<string, int>))
    ensures !NeedsLogin(cfg, auth, req) ==> r == (Continue, entries)
    ensures NeedsLogin(cfg, auth, req) && !auth.isLogin(req.token) ==>
              r == (Halt(Error(req.requestTime, PleaseLogin, None, 401)), entries)
    ensures NeedsLogin(cfg, auth, req) && auth.isLogin(req.token) && !Authorized(cfg, auth, req) ==>
              r == (Halt(Error(req.requestTime, NoPermission, None, 403)), entries)
    ensures GateRuns(cfg, auth, req) ==>
              var g := Evaluate(cfg.signatureStr, cfg.signExpire, prims, req.params, now, entries);
              r == (GateFlow(g.0, req.requestTime), g.1)
    ensures NeedsLogin(cfg, auth, req) && Authorized(cfg, auth, req) && !cfg.checkParameters ==>
              r == (Continue, entries)
    ensures r.1 != entries ==> GateRuns(cfg, auth, req) && r.0 == Continue
  {
    var path := Path(req.controller, req.action);
    if !auth.matches(cfg.noNeedLogin, path) then
      if !auth.isLogin(req.token) then (Halt(Error(req.requestTime, PleaseLogin, None, 401)), entries)
      else if !auth.matches(cfg.noNeedRight, path) && !auth.check(path) then
        (Halt(Error(req.requestTime, NoPermission, None, 403)), entries)
      else if cfg.checkParameters then
        var g := Evaluate(cfg.signatureStr, cfg.signExpire, prims, req.params, now, entries);
        (GateFlow(g.0, req.requestTime), g.1)
      else (Continue, entries)
    else (Continue, entries)
  }

  /** Every halt `_initialize` produces carries one of the guard's codes,
      and a halt with a gate code happens only where the gate runs. */
  lemma AuthorizeCodes(cfg: Config, auth: AuthService, req: Request, now: int, prims: Primitives,
                       entries: map<string, int>)
    ensures var r := Authorize(cfg, auth, req, now, prims, entries);
            r.0.Halt? ==> r.0.response.body.code in {401, 403, 503, 504, 505, 555}
                          && r.0.response.status == Int(r.0.response.body.code)
    ensures var r := Authorize(cfg, auth, req, now, prims, entries);
            r.0.Halt? && r.0.response.body.code in {503, 504, 505, 555} ==> GateRuns(cfg, auth, req)
  {
  }

  /** Replay at the controller level: a request that got through
      `_initialize` halts when sent again within the window, with 555, or
      505 if its timestamp has expired by then. */
  lemma ReplayedRequestHalts(cfg: Config, auth: AuthService, req: Request, t1: int, t2: int,
                             prims: Primitives, entries: map<string, int>)
    requires GateRuns(cfg, auth, req)
    requires Authorize(cfg, auth, req, t1, prims, entries).0 == Continue
    requires t1 <= t2 <= t1 + cfg.signExpire
    ensures var after := Authorize(cfg, auth, req, t1, prims, entries).1;
            var again := Authorize(cfg, auth, req, t2, prims, after).0;
            again.Halt? && again.response.body.code in {505, 555}
  {
    SecondSubmissionRejected(cfg.signatureStr, cfg.signExpire, prims, req.params, t1, t2, entries);
  }

  /** The controller. The replay cache is shared by all requests. */
  class Apis {
    const cfg: Config
    const cache: ReplayCache

    constructor (cfg: Config, cache: ReplayCache)
      ensures this.cfg == cfg && this.cache == cache
    {
      this.cfg := cfg;
      this.cache := cache;
    }

    /** `defendRepeat`: reads the cache, then stores the signature when it
        was not there. */
    method DefendRepeat(sign: string, now: int) returns (o: GateOutcome)
      modifies cache
      ensures (o, cache.entries) == RepeatCheck(old(cache.entries), sign, now, cfg.signExpire)
    {
      var signed := cache.Get(sign, now);
      if signed {
        o := Rejected(555, Duplicate);
      } else {
        cache.Set(sign, now, cfg.signExpire);
        o := Accepted;
      }
    }

    /** `filterParameters`: the required fields, then the kept parameters
        copied and sorted in place by key, their signature compared, the
        timestamp checked and the replay cache consulted. */
    method FilterParameters(params: seq<Param>, now: int, prims: Primitives) returns (o: GateOutcome)
      requires StrictTotalOrder(prims.keyLess)
      requires UniqueKeys(params)
      modifies cache
      ensures (o, cache.entries) == Evaluate(cfg.signatureStr, cfg.signExpire, prims, params, now, old(cache.entries))
    {
      var timestamp := Lookup(params, "timestamp");
      var token := Lookup(params, "token");
      var nonce := Lookup(params, "nonce");
      var signature := Lookup(params, "signature");
      if !TruthyField(timestamp) || !TruthyField(token) || !TruthyField(nonce) || !TruthyField(signature) {
        return Rejected(503, MissingParams);
      }
      var kept := Filtered(params, cfg.signatureStr);
      var query := new Param[|kept|](i requires 0 <= i < |kept| => kept[i]);
      assert query[..] == kept;
      KSort(query, prims.keyLess);
      SortedKeptIsCanonical(query[..], params, cfg.signatureStr, prims.keyLess);
      var sign := Sign(prims, query[..]);
      if sign != signature.value {
        return Rejected(504, Tampered);
      }
      if prims.toNumber(timestamp.value) < now - cfg.signExpire {
        return Rejected(505, Expired);
      }
      o := DefendRepeat(sign, now);
    }

    /** The authentication part of `_initialize`. */
    method Initialize(auth: AuthService, req: Request, now: int, prims: Primitives) returns (flow: Flow)
      requires StrictTotalOrder(prims.keyLess)
      requires UniqueKeys(req.params)
      modifies cache
      ensures (flow, cache.entries) == Authorize(cfg, auth, req, now, prims, old(cache.entries))
    {
      var path := Path(req.controller, req.action);
      flow := Continue;
      if !auth.matches(cfg.noNeedLogin, path) {
        if !auth.isLogin(req.token) {
          return Halt(Error(req.requestTime, PleaseLogin, None, 401));
        }
        if !auth.matches(cfg.noNeedRight, path) {
          if !auth.check(path) {
            return Halt(Error(req.requestTime, NoPermission, None, 403));
          }
        }
        if cfg.checkParameters {
          var o := FilterParameters(req.params, now, prims);
          flow := GateFlow(o, req.requestTime);
        }
      }
    }

    /** `beforeAction`: applies the entry's filter and, when it admits the
        action, calls the hook. */
    method BeforeAction(name: string, options: HookOptions, action: string, hooks: string -> Flow)
      returns (flow: Flow, called: bool)
      ensures called <==> Runs(options, action)
      ensures flow == if called then hooks(name) else Continue
    {
      called, flow := false, Continue;
      if options.only.Some? {
        var only := ActionNames(options.only.value);
        if action !in only {
          return;
        }
      } else if options.except.Some? {
        var except := ActionNames(options.except.value);
        if action in except {
          return;
        }
      }
      called, flow := true, hooks(name);
    }

    /** The constructor's loop over `beforeActionList`, stopping at the
        first hook that halts. */
    method RunBeforeActions(action: string, hooks: string -> Flow) returns (flow: Flow, invoked: seq<string>)
      ensures (flow, invoked) == Dispatch(cfg.beforeActionList, action, hooks)
    {
      var list := cfg.beforeActionList;
      flow, invoked := Continue, [];
      var i := 0;
      assert list[i..] == list;
      assert invoked + Dispatch(list, action, hooks).1 == Dispatch(list, action, hooks).1;
      while i < |list|
        invariant 0 <= i <= |list|
        invariant flow == Continue
        invariant Dispatch(list, action, hooks)
               == (Dispatch(list[i..], action, hooks).0, invoked + Dispatch(list[i..], action, hooks).1)
      {
        DispatchAdvance(list, i, invoked, action, hooks);
        // a numeric key carries just the method name: no options
        var entry := list[i];
        var called;
        flow, called := BeforeAction(entry.name, OptionsOf(entry), action, hooks);
        if called {
          invoked := invoked + [entry.name];
          if flow != Continue {
            return;
          }
        }
        i := i + 1;
      }
      assert list[i..] == [];
      assert invoked + [] == invoked;
    }

    /** The constructor `__construct`: `_initialize`, then, unless it
        halted, the before-action hooks. */
    method Open(auth: AuthService, req: Request, now: int, prims: Primitives, hooks: string -> Flow)
      returns (flow: Flow, invoked: seq<string>)
      requires StrictTotalOrder(prims.keyLess)
      requires UniqueKeys(req.params)
      modifies cache
      ensures var init := Authorize(cfg, auth, req, now, prims, old(cache.entries));
              && cache.entries == init.1
              && (init.0 != Continue ==> flow == init.0 && invoked == [])
              && (init.0 == Continue ==> (flow, invoked) == Dispatch(cfg.beforeActionList, req.action, hooks))
    {
      flow := Initialize(auth, req, now, prims);
      invoked := [];
      if flow == Continue {
        flow, invoked := RunBeforeActions(req.action, hooks);
      }
    }
  }
}
