/** Trap-and-retry for 401 and 407: the per-connection state machine and the requests that share it. */
module Auth {
  import opened Wrappers

  datatype Scheme = Basic | Digest | Ntlm | Negotiate | Bearer | Unknown(name: string)

  datatype Header = Authorization | ProxyAuthorization

  /** A parsed `WWW-Authenticate` or `Proxy-Authenticate` value; of its payload only the length matters. */
  datatype Offer = Offer(scheme: Scheme, realm: Option<string>, payload: nat)

  datatype Challenge = Challenge(offer: Offer, header: Header)

  datatype Phase = Idle | ChallengeReceived | Authenticated

  datatype AuthState = AuthState(phase: Phase, scheme: Option<Scheme>, realm: Option<string>, retried: bool)

  type States = map<string, AuthState>

  const DEFAULT: AuthState := AuthState(Idle, None, None, false)

  function StateOf(states: States, key: string): AuthState {
    if key in states then states[key] else DEFAULT
  }

  /** The challenge a response carries, if it is one the engine answers. */
  function Trapped(status: nat, www: Option<Offer>, proxy: Option<Offer>): Option<Challenge> {
    if status == 401 && www.Some? then Some(Challenge(www.value, Authorization))
    else if status == 407 && proxy.Some? then Some(Challenge(proxy.value, ProxyAuthorization))
    else None
  }

  function AfterResponse(s: AuthState, status: nat, www: Option<Offer>, proxy: Option<Offer>): AuthState {
    match Trapped(status, www, proxy)
    case Some(c) => AuthState(ChallengeReceived, Some(c.offer.scheme), c.offer.realm, false)
    case None => if 200 <= status <= 299 then s.(phase := Authenticated) else s
  }

  /** Whether `build_auth_response` yields a token. Kerberos needs a system library. */
  predicate TokenBuilt(offer: Offer, kerberos: bool) {
    match offer.scheme
    case Ntlm => offer.payload == 0 || offer.payload >= 32
    case Negotiate => kerberos
    case Basic => true
    case _ => false
  }

  predicate RetryAllowed(s: AuthState, offer: Offer, kerberos: bool) {
    !s.retried && TokenBuilt(offer, kerberos)
  }

  function AfterRetry(s: AuthState, offer: Offer, kerberos: bool): AuthState {
    if RetryAllowed(s, offer, kerberos) then s.(retried := true, phase := Authenticated) else s
  }

  class AuthEngine {
    var states: States

    constructor ()
      ensures states == map[]
    {
      states := map[];
    }

    method Observe(key: string, status: nat, www: Option<Offer>, proxy: Option<Offer>) returns (r: Option<Challenge>)
      modifies this
      ensures r.Some? <==> (status == 401 && www.Some?) || (status == 407 && proxy.Some?)
      ensures r.Some? && status == 401 ==> r.value == Challenge(www.value, Authorization)
      ensures r.Some? && status == 407 ==> r.value == Challenge(proxy.value, ProxyAuthorization)
      ensures states.Keys == old(states).Keys + {key}
      ensures forall k :: k in old(states) && k != key ==> states[k] == old(states)[k]
      ensures r.Some? ==>
                states[key] == AuthState(ChallengeReceived, Some(r.value.offer.scheme), r.value.offer.realm, false)
      ensures r.None? && 200 <= status < 300 ==> states[key] == StateOf(old(states), key).(phase := Authenticated)
      ensures r.None? && !(200 <= status < 300) ==> states[key] == StateOf(old(states), key)
      // the calls that runs are made of
      ensures r == Trapped(status, www, proxy)
      ensures states == old(states)[key := AfterResponse(StateOf(old(states), key), status, www, proxy)]
    {
      var state := if key in states then states[key] else DEFAULT;
      r := None;
      if status == 401 {
        if www.Some? {
          state := AuthState(ChallengeReceived, Some(www.value.scheme), www.value.realm, false);
          r := Some(Challenge(www.value, Authorization));
        }
      } else if status == 407 {
        if proxy.Some? {
          state := AuthState(ChallengeReceived, Some(proxy.value.scheme), proxy.value.realm, false);
          r := Some(Challenge(proxy.value, ProxyAuthorization));
        }
      } else if 200 <= status <= 299 {
        state := state.(phase := Authenticated);
      }
      states := states[key := state];
    }

    method BuildRetryHeader(key: string, challenge: Challenge, kerberos: bool) returns (r: Option<Header>)
      modifies this
      ensures r.Some? <==>
              && !StateOf(old(states), key).retried
              && (|| challenge.offer.scheme == Basic
                  || (challenge.offer.scheme == Ntlm && (challenge.offer.payload == 0 || challenge.offer.payload >= 32))
                  || (challenge.offer.scheme == Negotiate && kerberos))
      ensures r.Some? ==> r.value == challenge.header
      ensures states.Keys == old(states).Keys + {key}
      ensures forall k :: k in old(states) && k != key ==> states[k] == old(states)[k]
      ensures r.Some? ==> states[key] == StateOf(old(states), key).(retried := true, phase := Authenticated)
      ensures r.None? ==> states[key] == StateOf(old(states), key)
      ensures r == if RetryAllowed(StateOf(old(states), key), challenge.offer, kerberos) then Some(challenge.header)
                   else None
      ensures states == old(states)[key := AfterRetry(StateOf(old(states), key), challenge.offer, kerberos)]
    {
      var state := if key in states then states[key] else DEFAULT;
      states := states[key := state];
      if state.retried {
        return None;
      }
      if !TokenBuilt(challenge.offer, kerberos) {
        return None;
      }
      states := states[key := state.(retried := true, phase := Authenticated)];
      return Some(challenge.header);
    }
  }

  // Requests running at the same time; request r uses the connection key keys[r].

  datatype Stage = Fresh | Challenged(c: Challenge) | Finished

  datatype Event =
    | Sent(req: nat)
    | Trap(key: string)
    | Retry(key: string)

  /** What a response brought, and what a request was sent again with. */
  datatype Note =
    | Responded(req: nat, status: nat, www: Option<Offer>, proxy: Option<Offer>)
    | Attached(req: nat, header: Header, offer: Offer)

  datatype World = World(states: States, stages: seq<Stage>, log: seq<Event>, trail: seq<Note>)

  /** Engine calls are atomic under its lock, so runs interleave whole calls. */
  datatype Step =
    | Respond(req: nat, status: nat, www: Option<Offer>, proxy: Option<Offer>)
    | Resend(req: nat, kerberos: bool)

  function Begin(keys: seq<string>): World {
    World(map[], seq(|keys|, _ => Fresh), [], [])
  }

  predicate Enabled(keys: seq<string>, w: World, step: Step) {
    && step.req < |keys| == |w.stages|
    && match step
       case Respond(r, _, _, _) => w.stages[r].Fresh?
       case Resend(r, _) => w.stages[r].Challenged?
  }

  function Do(keys: seq<string>, w: World, step: Step): World
    requires Enabled(keys, w, step)
  {
    var key := keys[step.req];
    var s := StateOf(w.states, key);
    match step
    case Respond(r, status, www, proxy) =>
      var states := w.states[key := AfterResponse(s, status, www, proxy)];
      var trail := w.trail + [Responded(r, status, www, proxy)];
      (match Trapped(status, www, proxy)
       case None => World(states, w.stages[r := Finished], w.log + [Sent(r)], trail)
       case Some(c) => World(states, w.stages[r := Challenged(c)], w.log + [Sent(r), Trap(key)], trail))
    case Resend(r, kerberos) =>
      var c := w.stages[r].c;
      var states := w.states[key := AfterRetry(s, c.offer, kerberos)];
      if RetryAllowed(s, c.offer, kerberos) then
        World(states, w.stages[r := Finished], w.log + [Retry(key), Sent(r)],
              w.trail + [Attached(r, c.header, c.offer)])
      else
        World(states, w.stages[r := Finished], w.log, w.trail)
  }

  predicate IsRun(keys: seq<string>, w: World, steps: seq<Step>)
    decreases |steps|
  {
    steps == [] || (Enabled(keys, w, steps[0]) && IsRun(keys, Do(keys, w, steps[0]), steps[1..]))
  }

  function Final(keys: seq<string>, w: World, steps: seq<Step>): World
    requires IsRun(keys, w, steps)
    decreases |steps|
  {
    if steps == [] then w else Final(keys, Do(keys, w, steps[0]), steps[1..])
  }

  function Count(log: seq<Event>, e: Event): nat {
    if log == [] then 0 else Count(log[..|log| - 1], e) + if log[|log| - 1] == e then 1 else 0
  }

  /** Of the traps and retries of this key, the latest is a retry. */
  predicate LastIsRetry(log: seq<Event>, key: string) {
    log != [] &&
    var last := log[|log| - 1];
    last == Retry(key) || (last != Trap(key) && LastIsRetry(log[..|log| - 1], key))
  }

  lemma AppendOne(log: seq<Event>, e: Event)
    ensures forall x :: Count(log + [e], x) == Count(log, x) + if x == e then 1 else 0
    ensures forall key :: LastIsRetry(log + [e], key) <==> e == Retry(key) || (e != Trap(key) && LastIsRetry(log, key))
  {
    assert (log + [e])[..|log|] == log;
  }

  lemma AppendTwo(log: seq<Event>, e: Event, f: Event)
    ensures log + [e, f] == log + [e] + [f]
    ensures forall x :: Count(log + [e, f], x) == Count(log, x) + (if x == e then 1 else 0) + (if x == f then 1 else 0)
    ensures forall key :: LastIsRetry(log + [e, f], key) <==>
                          || f == Retry(key)
                          || (f != Trap(key) && (e == Retry(key) || (e != Trap(key) && LastIsRetry(log, key))))
  {
    assert log + [e, f] == log + [e] + [f];
    AppendOne(log, e);
    AppendOne(log + [e], f);
  }

  /** What holds of one key at all times. */
  ghost predicate KeyOk(w: World, key: string) {
    var s := StateOf(w.states, key);
    && (s.retried ==> s.phase == Authenticated)
    && (s.phase == ChallengeReceived ==> !s.retried && s.scheme.Some?)
    && (s.retried <==> LastIsRetry(w.log, key))
    && Count(w.log, Retry(key)) + (if !s.retried && Count(w.log, Trap(key)) > 0 then 1 else 0) <= Count(w.log, Trap(key))
  }

  ghost predicate RequestOk(keys: seq<string>, w: World, r: nat)
    requires r < |keys| == |w.stages|
  {
    && (w.stages[r].Challenged? ==> Count(w.log, Trap(keys[r])) > 0)
    && Count(w.log, Sent(r)) <= match w.stages[r] case Fresh => 0 case Challenged(_) => 1 case Finished => 2
  }

  ghost predicate Inv(keys: seq<string>, w: World) {
    && |keys| == |w.stages|
    && (forall key :: KeyOk(w, key))
    && (forall r :: 0 <= r < |keys| ==> RequestOk(keys, w, r))
  }

  lemma LogGrows(keys: seq<string>, w: World, step: Step)
    requires Enabled(keys, w, step)
    ensures var key := keys[step.req];
            var w' := Do(keys, w, step);
            && (forall k :: k != key ==> Count(w'.log, Trap(k)) == Count(w.log, Trap(k)))
            && (forall k :: k != key ==> Count(w'.log, Retry(k)) == Count(w.log, Retry(k)))
            && (forall k :: k != key ==> (LastIsRetry(w'.log, k) <==> LastIsRetry(w.log, k)))
            && (forall r :: r != step.req ==> Count(w'.log, Sent(r)) == Count(w.log, Sent(r)))
            && Count(w'.log, Sent(step.req)) <= Count(w.log, Sent(step.req)) + 1
            && Count(w'.log, Trap(key)) >= Count(w.log, Trap(key))
  {
    hide Count, LastIsRetry;
    match step
    case Respond(r, status, www, proxy) =>
      AppendOne(w.log, Sent(r));
      AppendTwo(w.log, Sent(r), Trap(keys[r]));
    case Resend(r, _) =>
      AppendTwo(w.log, Retry(keys[r]), Sent(r));
  }

  lemma OwnKey(keys: seq<string>, w: World, step: Step)
    requires Enabled(keys, w, step)
    requires KeyOk(w, keys[step.req]) && RequestOk(keys, w, step.req)
    ensures KeyOk(Do(keys, w, step), keys[step.req])
    ensures RequestOk(keys, Do(keys, w, step), step.req)
  {
    hide Count, LastIsRetry;
    match step
    case Respond(r, status, www, proxy) =>
      AppendOne(w.log, Sent(r));
      AppendTwo(w.log, Sent(r), Trap(keys[r]));
    case Resend(r, _) =>
      AppendTwo(w.log, Retry(keys[r]), Sent(r));
  }

  lemma StepKeeps(keys: seq<string>, w: World, step: Step)
    requires Inv(keys, w) && Enabled(keys, w, step)
    ensures Inv(keys, Do(keys, w, step))
  {
    var w' := Do(keys, w, step);
    LogGrows(keys, w, step);
    OwnKey(keys, w, step);
    forall key
      ensures KeyOk(w', key)
    {
      assert KeyOk(w, key);
    }
    forall r | 0 <= r < |keys|
      ensures RequestOk(keys, w', r)
    {
      assert RequestOk(keys, w, r);
    }
  }

  lemma {:induction false} RunKeeps(keys: seq<string>, w: World, steps: seq<Step>)
    requires Inv(keys, w) && IsRun(keys, w, steps)
    ensures Inv(keys, Final(keys, w, steps))
    decreases |steps|
  {
    if steps != [] {
      StepKeeps(keys, w, steps[0]);
      RunKeeps(keys, Do(keys, w, steps[0]), steps[1..]);
    }
  }

  /**
   * Under every interleaving: a key is marked retried exactly when its latest trap or retry is a
   * retry, retries never outnumber challenges, and no request is sent more than twice.
   */
  lemma EveryRun(keys: seq<string>, steps: seq<Step>)
    requires IsRun(keys, Begin(keys), steps)
    ensures var w := Final(keys, Begin(keys), steps);
            && (forall key :: StateOf(w.states, key).retried <==> LastIsRetry(w.log, key))
            && (forall key :: StateOf(w.states, key).retried ==> StateOf(w.states, key).phase == Authenticated)
            && (forall key :: StateOf(w.states, key).phase == ChallengeReceived ==>
                                !StateOf(w.states, key).retried && StateOf(w.states, key).scheme.Some?)
            && (forall key :: Count(w.log, Retry(key)) <= Count(w.log, Trap(key)))
            && (forall r :: 0 <= r < |keys| ==> Count(w.log, Sent(r)) <= 2)
  {
    RunKeeps(keys, Begin(keys), steps);
    var w := Final(keys, Begin(keys), steps);
    forall key
      ensures KeyOk(w, key)
      ensures StateOf(w.states, key).retried <==> LastIsRetry(w.log, key)
      ensures StateOf(w.states, key).retried ==> StateOf(w.states, key).phase == Authenticated
      ensures StateOf(w.states, key).phase == ChallengeReceived ==>
                !StateOf(w.states, key).retried && StateOf(w.states, key).scheme.Some?
      ensures Count(w.log, Retry(key)) <= Count(w.log, Trap(key))
    {
    }
    forall r | 0 <= r < |keys|
      ensures Count(w.log, Sent(r)) <= 2
    {
      assert RequestOk(keys, w, r);
    }
  }

  // Between two retries of a key there is a challenge for it.

  ghost predicate Separated(log: seq<Event>) {
    forall key, i, j :: 0 <= i < j < |log| && log[i] == log[j] == Retry(key) ==>
                          exists m :: i < m < j && log[m] == Trap(key)
  }

  lemma {:induction false} TrapSince(log: seq<Event>, key: string, i: nat) returns (m: nat)
    requires i < |log| && log[i] == Retry(key) && !LastIsRetry(log, key)
    ensures i < m < |log| && log[m] == Trap(key)
    decreases |log|
  {
    if log[|log| - 1] == Trap(key) {
      m := |log| - 1;
    } else {
      m := TrapSince(log[..|log| - 1], key, i);
    }
  }

  lemma SeparatedStep(keys: seq<string>, w: World, step: Step)
    requires Inv(keys, w) && Enabled(keys, w, step) && Separated(w.log)
    ensures Separated(Do(keys, w, step).log)
  {
    hide Count, TokenBuilt, AfterResponse, AfterRetry;
    var log := Do(keys, w, step).log;
    assert KeyOk(w, keys[step.req]);
    forall key, i, j | 0 <= i < j < |log| && log[i] == log[j] == Retry(key)
      ensures exists m :: i < m < j && log[m] == Trap(key)
    {
      if j < |w.log| {
        assert w.log[i] == w.log[j] == Retry(key);
        var m :| i < m < j && w.log[m] == Trap(key);
        assert log[m] == Trap(key);
      } else {
        var m := TrapSince(w.log, key, i);
        assert log[m] == Trap(key);
      }
    }
  }

  lemma {:induction false} RunSeparated(keys: seq<string>, w: World, steps: seq<Step>)
    requires Inv(keys, w) && IsRun(keys, w, steps) && Separated(w.log)
    ensures Separated(Final(keys, w, steps).log)
    decreases |steps|
  {
    if steps != [] {
      StepKeeps(keys, w, steps[0]);
      SeparatedStep(keys, w, steps[0]);
      RunSeparated(keys, Do(keys, w, steps[0]), steps[1..]);
    }
  }

  lemma ChallengeBetweenRetries(keys: seq<string>, steps: seq<Step>)
    requires IsRun(keys, Begin(keys), steps)
    ensures Separated(Final(keys, Begin(keys), steps).log)
  {
    RunSeparated(keys, Begin(keys), steps);
  }

  // What is attached answers what the request itself was given.

  /** The offer a response puts to its request: of the header that goes with the status, and only for these two. */
  function OfferMade(n: Note): Option<Offer> {
    match n
    case Responded(_, 401, www, _) => www
    case Responded(_, 407, _, proxy) => proxy
    case _ => None
  }

  ghost predicate Answers(trail: seq<Note>, r: nat, header: Header, offer: Offer) {
    exists i :: 0 <= i < |trail| && trail[i].Responded? && trail[i].req == r && OfferMade(trail[i]) == Some(offer) &&
                (header == Authorization <==> trail[i].status == 401)
  }

  /** Of the notes about this connection key, what the latest that matters says of the phase. */
  function PhaseFrom(keys: seq<string>, trail: seq<Note>, key: string): Phase {
    if trail == [] then Idle
    else
      var front, last := trail[..|trail| - 1], trail[|trail| - 1];
      if last.req >= |keys| || keys[last.req] != key then PhaseFrom(keys, front, key)
      else if OfferMade(last).Some? then ChallengeReceived
      else if last.Attached? || 200 <= last.status <= 299 then Authenticated
      else PhaseFrom(keys, front, key)
  }

  /** The offer last put to a request on this connection key. */
  function LastOffer(keys: seq<string>, trail: seq<Note>, key: string): Option<Offer> {
    if trail == [] then None
    else
      var front, last := trail[..|trail| - 1], trail[|trail| - 1];
      if last.req < |keys| && keys[last.req] == key && OfferMade(last).Some? then OfferMade(last)
      else LastOffer(keys, front, key)
  }

  ghost predicate Remembered(keys: seq<string>, w: World, key: string) {
    var s := StateOf(w.states, key);
    && s.phase == PhaseFrom(keys, w.trail, key)
    && match LastOffer(keys, w.trail, key)
       case None => s.scheme.None? && s.realm.None?
       case Some(offer) => s.scheme == Some(offer.scheme) && s.realm == offer.realm
  }

  ghost predicate Traced(keys: seq<string>, w: World) {
    && |keys| == |w.stages|
    && (forall key :: Remembered(keys, w, key))
    && (forall i :: 0 <= i < |w.trail| ==>
                      w.trail[i].req < |keys| && !w.stages[w.trail[i].req].Fresh? &&
                      (w.trail[i].Attached? ==> w.stages[w.trail[i].req].Finished?))
    && (forall r :: 0 <= r < |keys| && w.stages[r].Challenged? ==>
                      Answers(w.trail, r, w.stages[r].c.header, w.stages[r].c.offer))
    && EachOnce(w.trail) && AllAnswer(w.trail)
  }

  ghost predicate EachOnce(trail: seq<Note>) {
    forall i, j :: 0 <= i < j < |trail| && trail[i].req == trail[j].req ==> trail[i].Responded? && trail[j].Attached?
  }

  ghost predicate AllAnswer(trail: seq<Note>) {
    forall j :: 0 <= j < |trail| && trail[j].Attached? ==>
                  Answers(trail[..j], trail[j].req, trail[j].header, trail[j].offer)
  }

  lemma AnswersGrow(trail: seq<Note>, n: Note)
    ensures forall r, header, offer :: Answers(trail, r, header, offer) ==> Answers(trail + [n], r, header, offer)
  {
    forall r, header, offer | Answers(trail, r, header, offer)
      ensures Answers(trail + [n], r, header, offer)
    {
      var i :| 0 <= i < |trail| && trail[i].Responded? && trail[i].req == r && OfferMade(trail[i]) == Some(offer) &&
               (header == Authorization <==> trail[i].status == 401);
      assert (trail + [n])[i] == trail[i];
    }
  }

  lemma RememberedStep(keys: seq<string>, w: World, step: Step)
    requires Enabled(keys, w, step) && forall key :: Remembered(keys, w, key)
    ensures forall key :: Remembered(keys, Do(keys, w, step), key)
  {
    var w' := Do(keys, w, step);
    assert w'.trail != w.trail ==> w'.trail[..|w'.trail| - 1] == w.trail;
    forall key
      ensures Remembered(keys, w', key)
    {
      assert Remembered(keys, w, key);
    }
  }

  lemma AllAnswerStep(trail: seq<Note>, n: Note)
    requires AllAnswer(trail) && (n.Attached? ==> Answers(trail, n.req, n.header, n.offer))
    ensures AllAnswer(trail + [n])
  {
    forall j | 0 <= j < |trail + [n]| && (trail + [n])[j].Attached?
      ensures Answers((trail + [n])[..j], (trail + [n])[j].req, (trail + [n])[j].header, (trail + [n])[j].offer)
    {
      assert (trail + [n])[..j] == trail[..j];
      if j == |trail| {
        assert trail[..j] == trail;
      }
    }
  }

  /** The note a step makes, unless nothing is attached. */
  function NewNote(w: World, step: Step): Note
    requires step.req < |w.stages| && (step.Resend? ==> w.stages[step.req].Challenged?)
  {
    match step
    case Respond(r, status, www, proxy) => Responded(r, status, www, proxy)
    case Resend(r, _) => Attached(r, w.stages[r].c.header, w.stages[r].c.offer)
  }

  lemma NewAnswer(trail: seq<Note>, n: Note)
    requires n.Responded?
    ensures var c := Trapped(n.status, n.www, n.proxy);
            c.Some? ==> Answers(trail + [n], n.req, c.value.header, c.value.offer)
  {
    assert (trail + [n])[|trail|] == n;
  }

  lemma EachOnceStep(trail: seq<Note>, n: Note)
    requires EachOnce(trail)
    requires forall i :: 0 <= i < |trail| && trail[i].req == n.req ==> trail[i].Responded? && n.Attached?
    ensures EachOnce(trail + [n])
  {
  }

  lemma TracedStep(keys: seq<string>, w: World, step: Step)
    requires Traced(keys, w) && Enabled(keys, w, step)
    ensures Traced(keys, Do(keys, w, step))
  {
    RememberedStep(keys, w, step);
    var n := NewNote(w, step);
    AnswersGrow(w.trail, n);
    AllAnswerStep(w.trail, n);
    EachOnceStep(w.trail, n);
    hide Remembered, Answers, AllAnswer, EachOnce, AfterResponse, AfterRetry, RetryAllowed;
    match step
    case Respond(r, status, www, proxy) =>
      NewAnswer(w.trail, n);
    case Resend(r, kerberos) =>
  }

  lemma {:induction false} RunTraced(keys: seq<string>, w: World, steps: seq<Step>)
    requires Traced(keys, w) && IsRun(keys, w, steps)
    ensures Traced(keys, Final(keys, w, steps))
    decreases |steps|
  {
    if steps != [] {
      TracedStep(keys, w, steps[0]);
      RunTraced(keys, Do(keys, w, steps[0]), steps[1..]);
    }
  }

  /**
   * Under every interleaving a header is attached only to a request that got a response of its own
   * before, with the offer that response made: `Authorization` after 401, `ProxyAuthorization` after
   * 407. No request gets a second response to answer or a second header, and what is kept for
   * a key follows from its responses and headers alone.
   */
  lemma AttachedAnswersOwnOffer(keys: seq<string>, steps: seq<Step>)
    requires IsRun(keys, Begin(keys), steps)
    ensures var w := Final(keys, Begin(keys), steps);
            && (forall j :: 0 <= j < |w.trail| && w.trail[j].Attached? ==>
                              exists i :: 0 <= i < j && w.trail[i].Responded? && w.trail[i].req == w.trail[j].req &&
                                          if w.trail[j].header == Authorization
                                          then w.trail[i].status == 401 && w.trail[i].www == Some(w.trail[j].offer)
                                          else w.trail[i].status == 407 && w.trail[i].proxy == Some(w.trail[j].offer))
            && EachOnce(w.trail)
            && (forall key :: Remembered(keys, w, key))
  {
    RunTraced(keys, Begin(keys), steps);
    var trail := Final(keys, Begin(keys), steps).trail;
    forall j | 0 <= j < |trail| && trail[j].Attached?
      ensures exists i :: 0 <= i < j && trail[i].Responded? && trail[i].req == trail[j].req &&
                          if trail[j].header == Authorization
                          then trail[i].status == 401 && trail[i].www == Some(trail[j].offer)
                          else trail[i].status == 407 && trail[i].proxy == Some(trail[j].offer)
    {
      assert Answers(trail[..j], trail[j].req, trail[j].header, trail[j].offer);
      var i :| 0 <= i < j && trail[..j][i].Responded? && trail[..j][i].req == trail[j].req &&
               OfferMade(trail[..j][i]) == Some(trail[j].offer) &&
               (trail[j].header == Authorization <==> trail[..j][i].status == 401);
      assert trail[..j][i] == trail[i];
    }
  }

  /**
   * At any time in any run: a challenged request is sent again exactly when the key's latest trap
   * or retry is no retry and the offer is one a token can be built for.
   */
  lemma ResentIff(keys: seq<string>, steps: seq<Step>, r: nat, kerberos: bool)
    requires IsRun(keys, Begin(keys), steps)
    requires Enabled(keys, Final(keys, Begin(keys), steps), Resend(r, kerberos))
    ensures var w := Final(keys, Begin(keys), steps);
            var w', offer := Do(keys, w, Resend(r, kerberos)), w.stages[r].c.offer;
            && w'.stages == w.stages[r := Finished]
            && if && !LastIsRetry(w.log, keys[r])
                  && (|| offer.scheme == Basic
                      || (offer.scheme == Negotiate && kerberos)
                      || (offer.scheme == Ntlm && !(0 < offer.payload < 32)))
               then w'.trail == w.trail + [Attached(r, w.stages[r].c.header, offer)]
               else w'.trail == w.trail
  {
    RunKeeps(keys, Begin(keys), steps);
    assert KeyOk(Final(keys, Begin(keys), steps), keys[r]);
  }

  // "Never more than one retry per connection": true only while requests do not share keys.

  ghost predicate OneRetryEach(keys: seq<string>, w: World) {
    && |keys| == |w.stages|
    && (forall r :: 0 <= r < |keys| ==> Count(w.log, Retry(keys[r])) <= if w.stages[r].Finished? then 1 else 0)
    && (forall key :: key !in keys ==> Count(w.log, Retry(key)) == 0)
  }

  ghost predicate AllDistinct(keys: seq<string>) {
    forall i, j :: 0 <= i < j < |keys| ==> keys[i] != keys[j]
  }

  lemma {:induction false} DistinctKeysRetryOnce(keys: seq<string>, w: World, steps: seq<Step>)
    requires AllDistinct(keys) && OneRetryEach(keys, w) && IsRun(keys, w, steps)
    ensures OneRetryEach(keys, Final(keys, w, steps))
    decreases |steps|
  {
    if steps != [] {
      OneRetryStep(keys, w, steps[0]);
      DistinctKeysRetryOnce(keys, Do(keys, w, steps[0]), steps[1..]);
    }
  }

  lemma OneRetryStep(keys: seq<string>, w: World, step: Step)
    requires AllDistinct(keys) && OneRetryEach(keys, w) && Enabled(keys, w, step)
    ensures OneRetryEach(keys, Do(keys, w, step))
  {
    hide Count, LastIsRetry;
    LogGrows(keys, w, step);
    match step
    case Respond(r, status, www, proxy) =>
      AppendOne(w.log, Sent(r));
      AppendTwo(w.log, Sent(r), Trap(keys[r]));
    case Resend(r, _) =>
      AppendTwo(w.log, Retry(keys[r]), Sent(r));
  }

  lemma OneStep(keys: seq<string>, w: World, step: Step, rest: seq<Step>) returns (steps: seq<Step>)
    requires Enabled(keys, w, step) && IsRun(keys, Do(keys, w, step), rest)
    ensures steps == [step] + rest && IsRun(keys, w, steps)
    ensures Final(keys, w, steps) == Final(keys, Do(keys, w, step), rest)
  {
    steps := [step] + rest;
    assert steps[1..] == rest;
  }

  /** Two requests on one connection, each challenged and each retried. */
  lemma SharedKeyRetriesTwice(keys: seq<string>, i: nat, j: nat) returns (steps: seq<Step>)
    requires i < j < |keys| && keys[i] == keys[j]
    ensures IsRun(keys, Begin(keys), steps)
    ensures Count(Final(keys, Begin(keys), steps).log, Retry(keys[i])) == 2
  {
    hide IsRun, Final, Count, LastIsRetry;
    NothingYet();
    var basic := Some(Offer(Basic, None, 0));
    var w0, key := Begin(keys), keys[i];
    var w1 := Do(keys, w0, Respond(i, 401, basic, None));
    var w2 := Do(keys, w1, Resend(i, false));
    var w3 := Do(keys, w2, Respond(j, 401, basic, None));
    var w4 := Do(keys, w3, Resend(j, false));
    AppendTwo(w0.log, Sent(i), Trap(key));
    AppendTwo(w1.log, Retry(key), Sent(i));
    AppendTwo(w2.log, Sent(j), Trap(key));
    AppendTwo(w3.log, Retry(key), Sent(j));
    NoSteps(keys, w4);
    steps := OneStep(keys, w3, Resend(j, false), []);
    steps := OneStep(keys, w2, Respond(j, 401, basic, None), steps);
    steps := OneStep(keys, w1, Resend(i, false), steps);
    steps := OneStep(keys, w0, Respond(i, 401, basic, None), steps);
  }

  lemma NoSteps(keys: seq<string>, w: World)
    ensures IsRun(keys, w, []) && Final(keys, w, []) == w
  {
  }

  lemma NothingYet()
    ensures forall e :: Count([], e) == 0
  {
  }

  lemma RetryOnceIff(keys: seq<string>)
    ensures (forall steps, key :: IsRun(keys, Begin(keys), steps) ==>
                                    Count(Final(keys, Begin(keys), steps).log, Retry(key)) <= 1)
            <==> AllDistinct(keys)
  {
    if AllDistinct(keys) {
      forall steps, key | IsRun(keys, Begin(keys), steps)
        ensures Count(Final(keys, Begin(keys), steps).log, Retry(key)) <= 1
      {
        DistinctKeysRetryOnce(keys, Begin(keys), steps);
        if key in keys {
          var r :| 0 <= r < |keys| && keys[r] == key;
        }
      }
    } else {
      var i, j :| 0 <= i < j < |keys| && keys[i] == keys[j];
      var steps := SharedKeyRetriesTwice(keys, i, j);
    }
  }
}
