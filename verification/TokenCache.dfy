/** The App Store Connect token cache: `bearer_token` as a method, and any number of callers of it
    as a state machine. A caller reads the clock before it queues for the lock, so the readings
    reach the cache in any order. */
module TokenCache {
  import opened Common
  import Pem

  const AUDIENCE := "appstoreconnect-v1"
  const TTL_SECS := 1200
  const REFRESH_MARGIN := 60

  datatype Credentials = Credentials(issuerId: string, keyId: string, privateKeyP8: seq<byte>)

  datatype Header = Header(alg: string, typ: string, kid: string)

  datatype TeamClaims = TeamClaims(iss: string, iat: int, exp: int, aud: string)

  /** A signed token, as what was signed, under which key, with which signature. */
  datatype Jwt = Jwt(header: Header, claims: TeamClaims, pem: seq<byte>, signature: seq<byte>)

  datatype SignFailure = InvalidKey(reason: string) | SigningFailed(reason: string)

  /** One attempt to sign, its randomness included: key PEM, header and claims to a signature. */
  type Signer = (seq<byte>, Header, TeamClaims) -> Result<seq<byte>, SignFailure>

  datatype CachedToken = CachedToken(token: Jwt, expiresAt: int)

  /** Seconds since the epoch; a clock set before it reads 0. */
  function UnixNow(clock: int): nat {
    if clock >= 0 then clock else 0
  }

  predicate NeedsRefresh(expiresAt: int, now: int) {
    now + REFRESH_MARGIN >= expiresAt
  }

  function SignTeamToken(c: Credentials, now: int, signer: Signer): Result<Jwt, StackError> {
    var claims := TeamClaims(c.issuerId, now, now + TTL_SECS, AUDIENCE);
    var header := Header("ES256", "JWT", c.keyId);
    var pem := Pem.Normalized(c.privateKeyP8);
    match signer(pem, header, claims)
    case Ok(signature) => Ok(Jwt(header, claims, pem, signature))
    case Err(InvalidKey(reason)) => Err(Auth("invalid .p8 private key: " + reason))
    case Err(SigningFailed(reason)) => Err(Auth("JWT signing failed: " + reason))
  }

  /** `t` is a token of these credentials, issued at some second for exactly 1200 s. */
  predicate IssuedFor(c: Credentials, t: Jwt) {
    t.header == Header("ES256", "JWT", c.keyId) && t.pem == Pem.Normalized(c.privateKeyP8) &&
    t.claims.iss == c.issuerId && t.claims.aud == "appstoreconnect-v1" && t.claims.exp == t.claims.iat + 1200
  }

  /** This attempt gave the token's signature for the token's own key, header and claims. */
  predicate SignedBy(signer: Signer, t: Jwt) {
    signer(t.pem, t.header, t.claims) == Ok(t.signature)
  }

  /** What a caller gets that finds no usable token: the signer is asked for a signature, with the
      normalised key, an ES256 header with the key id, and claims for the next 1200 s. */
  lemma SignTeamTokenOutcome(c: Credentials, now: int, signer: Signer)
    ensures var r := SignTeamToken(c, now, signer);
            var pem, header := Pem.Normalized(c.privateKeyP8), Header("ES256", "JWT", c.keyId);
            var claims := TeamClaims(c.issuerId, now, now + 1200, "appstoreconnect-v1");
            match signer(pem, header, claims)
            case Ok(signature) => r == Ok(Jwt(header, claims, pem, signature)) && SignedBy(signer, r.value)
            case Err(InvalidKey(reason)) => r == Err(Auth("invalid .p8 private key: " + reason))
            case Err(SigningFailed(reason)) => r == Err(Auth("JWT signing failed: " + reason))
  {
    hide Pem.Normalized;
  }

  /** A cached token that expires more than 60 s after this reading is handed out again. */
  predicate Usable(cache: Option<CachedToken>, now: int) {
    cache.Some? && cache.value.expiresAt > now + 60
  }

  /** The critical section of `bearer_token`: the cache after it, and what the caller gets. */
  function ServeOrMint(c: Credentials, cache: Option<CachedToken>, now: int, signer: Signer)
    : (Option<CachedToken>, Result<Jwt, StackError>)
  {
    if cache.Some? && !NeedsRefresh(cache.value.expiresAt, now) then (cache, Ok(cache.value.token))
    else
      match SignTeamToken(c, now, signer)
      case Ok(token) => (Some(CachedToken(token, now + TTL_SECS)), Ok(token))
      case Err(e) => (cache, Err(e))
  }

  /** When a call signs, what it asks of the signer, and what it makes of the answer: a usable token
      is returned as it is; otherwise the caller gets, and the cache holds, exactly the token signed
      for the normalised key, or the caller gets the signer's failure and the cache stays. */
  lemma ServeOrMintOutcome(c: Credentials, cache: Option<CachedToken>, now: int, signer: Signer)
    ensures var (after, r) := ServeOrMint(c, cache, now, signer);
            var pem, header := Pem.Normalized(c.privateKeyP8), Header("ES256", "JWT", c.keyId);
            var claims := TeamClaims(c.issuerId, now, now + 1200, "appstoreconnect-v1");
            if Usable(cache, now) then after == cache && r == Ok(cache.value.token)
            else
              match signer(pem, header, claims)
              case Ok(signature) =>
                r == Ok(Jwt(header, claims, pem, signature)) && after == Some(CachedToken(r.value, now + 1200))
              case Err(InvalidKey(reason)) => after == cache && r == Err(Auth("invalid .p8 private key: " + reason))
              case Err(SigningFailed(reason)) => after == cache && r == Err(Auth("JWT signing failed: " + reason))
  {
    SignTeamTokenOutcome(c, now, signer);
    hide Pem.Normalized, SignTeamToken;
  }

  predicate CacheOk(c: Credentials, cache: Option<CachedToken>) {
    cache.Some? ==> IssuedFor(c, cache.value.token) && cache.value.expiresAt == cache.value.token.claims.exp
  }

  class AppStoreAuthenticator {
    const credentials: Credentials
    var cache: Option<CachedToken>

    ghost predicate Valid()
      reads this
    {
      CacheOk(credentials, cache)
    }

    constructor (credentials: Credentials)
      ensures Valid() && this.credentials == credentials && cache == None
    {
      this.credentials := credentials;
      cache := None;
    }

    /** A token returned is the cached one and has more than 60 s left at the caller's clock reading.
        Unless the cache held such a token, it was signed just now: its signature is what the signer
        gave for its own key, header and claims. The call fails exactly when that signing does. The
        cached expiry never goes down, rises by at least 1140 s on a re-mint, and a failed signing
        changes nothing. */
    method BearerToken(clock: int, signer: Signer) returns (r: Result<Jwt, StackError>)
      requires Valid()
      modifies this`cache
      ensures Valid()
      ensures (cache, r) == ServeOrMint(credentials, old(cache), UnixNow(clock), signer)
      ensures r.Ok? ==> cache.Some? && r.value == cache.value.token &&
                        cache.value.expiresAt > (if clock >= 0 then clock else 0) + 60
      ensures r.Ok? && !Usable(old(cache), UnixNow(clock)) ==>
                r.value.claims.iat == (if clock >= 0 then clock else 0) && SignedBy(signer, r.value)
      ensures Usable(old(cache), UnixNow(clock)) ==> r == Ok(old(cache).value.token) && cache == old(cache)
      ensures r.Err? <==>
              !Usable(old(cache), UnixNow(clock)) &&
              signer(Pem.Normalized(credentials.privateKeyP8), Header("ES256", "JWT", credentials.keyId),
                     TeamClaims(credentials.issuerId, UnixNow(clock), UnixNow(clock) + 1200,
                                "appstoreconnect-v1")).Err?
      ensures old(cache).Some? && cache != old(cache) ==>
                cache.Some? && cache.value.expiresAt >= old(cache).value.expiresAt + 1140
      ensures r.Err? ==> cache == old(cache) && (cache.Some? ==> NeedsRefresh(cache.value.expiresAt, UnixNow(clock)))
    {
      var now := UnixNow(clock);
      ServeOrMintOutcome(credentials, cache, now, signer);
      hide Pem.Normalized;
      if cache.Some? {
        if !NeedsRefresh(cache.value.expiresAt, now) {
          return Ok(cache.value.token);
        }
      }
      r := SignTeamToken(credentials, now, signer);
      if r.Ok? {
        cache := Some(CachedToken(r.value, now + TTL_SECS));
      }
    }
  }

  // ---------------------------------------------------------------------------
  // Many callers
  // ---------------------------------------------------------------------------

  /** What a call returned, and what its clock reading and the clock were. */
  datatype Answer = Answer(now: int, clock: int, result: Result<Jwt, StackError>)

  /** The cache, the clock, and the callers that have read the clock and wait for the lock;
      beside them the history: readings, signed tokens and answers, oldest first. */
  datatype State = State(
    cache: Option<CachedToken>,
    clock: int,
    waiting: map<nat, int>,
    readings: seq<int>,
    minted: seq<Jwt>,
    answers: seq<Answer>)

  datatype Step =
    | Tick(to: int)
    | ReadClock(caller: nat)
    | Acquire(caller: nat, signer: Signer)

  function Init(clock: int): State {
    State(None, clock, map[], [], [], [])
  }

  /** One step of one caller or of the clock. The lock is held from the check of the cache to the
      return without a suspension point, so that part is one step. A step that is not enabled
      changes nothing. */
  function Apply(c: Credentials, s: State, step: Step): State {
    match step
    case Tick(to) => s.(clock := to)
    case ReadClock(caller) =>
      if caller in s.waiting then s
      else
        s.(waiting := s.waiting[caller := UnixNow(s.clock)], readings := s.readings + [UnixNow(s.clock)])
    case Acquire(caller, signer) =>
      if caller !in s.waiting then s
      else
        var now := s.waiting[caller];
        var (cache, result) := ServeOrMint(c, s.cache, now, signer);
        var minted := result.Ok? && !(s.cache.Some? && !NeedsRefresh(s.cache.value.expiresAt, now));
        s.(cache := cache, waiting := s.waiting - {caller},
           minted := s.minted + (if minted then [result.value] else []),
           answers := s.answers + [Answer(now, UnixNow(s.clock), result)])
  }

  function Run(c: Credentials, s: State, steps: seq<Step>): State
    decreases |steps|
  {
    if steps == [] then s else Apply(c, Run(c, s, steps[..|steps| - 1]), steps[|steps| - 1])
  }

  // ---------------------------------------------------------------------------
  // What every run keeps
  // ---------------------------------------------------------------------------

  /** Each signing raises the expiry by at least 1140 s over the one before. */
  ghost predicate Spaced(minted: seq<Jwt>) {
    forall i | 0 < i < |minted| :: minted[i].claims.exp >= minted[i - 1].claims.exp + 1140
  }

  ghost predicate CacheIsLastMinted(s: State) {
    if s.minted == [] then s.cache == None
    else s.cache == Some(CachedToken(s.minted[|s.minted| - 1], s.minted[|s.minted| - 1].claims.exp))
  }

  ghost predicate MintedOk(c: Credentials, s: State) {
    forall i | 0 <= i < |s.minted| :: IssuedFor(c, s.minted[i]) && s.minted[i].claims.iat in s.readings
  }

  ghost predicate AnswerOk(s: State, r: Answer) {
    r.now in s.readings &&
    (r.result.Ok? ==> r.result.value in s.minted && r.result.value.claims.exp > r.now + 60)
  }

  /** Answered tokens never expire before those answered earlier, nor after the cached one. */
  ghost predicate AnswersRise(s: State) {
    (forall i | 0 <= i < |s.answers| && s.answers[i].result.Ok? ::
       s.cache.Some? && s.answers[i].result.value.claims.exp <= s.cache.value.expiresAt) &&
    forall i, j | 0 <= i < j < |s.answers| && s.answers[i].result.Ok? && s.answers[j].result.Ok? ::
      s.answers[i].result.value.claims.exp <= s.answers[j].result.value.claims.exp
  }

  /** What a step may do to answers and cache: a token answered is the one the cache holds right
      after the step, and a failure leaves the cache as it was. */
  ghost predicate HandsOverCache(s: State, t: State) {
    t.answers == s.answers ||
    (|t.answers| == |s.answers| + 1 && t.answers[..|s.answers|] == s.answers &&
     var r := t.answers[|s.answers|].result;
     if r.Ok? then t.cache == Some(CachedToken(r.value, r.value.claims.exp)) else t.cache == s.cache)
  }

  ghost predicate Inv(c: Credentials, s: State) {
    Spaced(s.minted) && CacheIsLastMinted(s) && MintedOk(c, s) && AnswersRise(s) &&
    (forall k | k in s.waiting :: s.waiting[k] in s.readings) &&
    (forall i | 0 <= i < |s.answers| :: AnswerOk(s, s.answers[i]))
  }

  /** More readings, more minted tokens and more answers leave the old answers in order. */
  lemma AnswersStayOk(s: State, t: State)
    requires forall i | 0 <= i < |s.answers| :: AnswerOk(s, s.answers[i])
    requires forall r | r in s.readings :: r in t.readings
    requires forall m | m in s.minted :: m in t.minted
    ensures forall i | 0 <= i < |s.answers| :: AnswerOk(t, s.answers[i])
  {}

  lemma AcquireKeepsInv(c: Credentials, s: State, caller: nat, signer: Signer)
    requires Inv(c, s)
    ensures Inv(c, Apply(c, s, Acquire(caller, signer)))
  {
    var t := Apply(c, s, Acquire(caller, signer));
    StepKeepsAnswersRising(c, s, Acquire(caller, signer));
    AcquireKeepsMinted(c, s, caller, signer);
    if caller in s.waiting {
      AcquireAnswers(c, s, caller, signer);
    }
    hide ServeOrMint, AnswersRise, Spaced, CacheIsLastMinted, MintedOk, AnswerOk, IssuedFor;
    AnswersStayOk(s, t);
  }

  lemma AcquireKeepsMinted(c: Credentials, s: State, caller: nat, signer: Signer)
    requires Inv(c, s)
    ensures var t := Apply(c, s, Acquire(caller, signer));
            Spaced(t.minted) && CacheIsLastMinted(t) && MintedOk(c, t)
  {
    hide Pem.Normalized, AnswersRise, AnswerOk;
  }

  lemma AcquireAnswers(c: Credentials, s: State, caller: nat, signer: Signer)
    requires Inv(c, s) && caller in s.waiting
    ensures var t := Apply(c, s, Acquire(caller, signer));
            |t.answers| == |s.answers| + 1 && t.answers == s.answers + [t.answers[|s.answers|]] &&
            AnswerOk(t, t.answers[|s.answers|])
  {
    hide Pem.Normalized, AnswersRise, Spaced, MintedOk;
  }

  lemma StepHandsOver(c: Credentials, s: State, step: Step)
    requires CacheIsLastMinted(s)
    ensures HandsOverCache(s, Apply(c, s, step))
  {
    hide Pem.Normalized;
  }

  lemma StepKeepsAnswersRising(c: Credentials, s: State, step: Step)
    requires CacheIsLastMinted(s) && AnswersRise(s)
    ensures AnswersRise(Apply(c, s, step))
  {
    var t := Apply(c, s, step);
    StepHandsOver(c, s, step);
    StepRaisesExpiry(c, s, step);
    assert |t.minted| >= |s.minted|;
    hide Apply, CacheIsLastMinted;
    assert forall i | 0 <= i < |s.answers| :: t.answers[i] == s.answers[i] by {
      assert forall i | 0 <= i < |s.answers| :: t.answers[..|s.answers|][i] == t.answers[i];
    }
  }

  lemma StepKeepsInv(c: Credentials, s: State, step: Step)
    requires Inv(c, s)
    ensures Inv(c, Apply(c, s, step))
  {
    StepKeepsAnswersRising(c, s, step);
    hide IssuedFor, ServeOrMint, AnswersRise;
    match step
    case Tick(_) =>
      AnswersStayOk(s, s.(clock := step.to));
    case ReadClock(caller) =>
      AnswersStayOk(s, Apply(c, s, step));
    case Acquire(caller, signer) =>
      AcquireKeepsInv(c, s, caller, signer);
  }

  lemma {:induction false} RunKeepsInv(c: Credentials, clock: int, steps: seq<Step>)
    ensures Inv(c, Run(c, Init(clock), steps))
  {
    if steps != [] {
      hide Inv, Apply;
      RunKeepsInv(c, clock, steps[..|steps| - 1]);
      StepKeepsInv(c, Run(c, Init(clock), steps[..|steps| - 1]), steps[|steps| - 1]);
    }
  }

  /** In any run, with any callers and any clock, each signing raises the cached expiry by at least
      1140 s. A caller gets only tokens that were signed for these credentials, live 1200 s and have
      more than 60 s left at the caller's own clock reading; each is the token the cache holds right
      after that step, and none expires before one answered earlier. */
  lemma EveryRun(c: Credentials, clock: int, steps: seq<Step>)
    ensures var s := Run(c, Init(clock), steps);
            Spaced(s.minted) && AnswersRise(s) &&
            (forall i | 0 <= i < |s.minted| :: IssuedFor(c, s.minted[i])) &&
            (forall i | 0 <= i < |s.answers| && s.answers[i].result.Ok? ::
               var t := s.answers[i].result.value;
               t in s.minted && t.claims.exp > s.answers[i].now + 60) &&
            (forall t | t in s.minted :: SignedInRun(steps, t))
    ensures forall k | 0 <= k < |steps| ::
              HandsOverCache(Run(c, Init(clock), steps[..k]), Run(c, Init(clock), steps[..k + 1]))
  {
    forall k | 0 <= k < |steps|
      ensures HandsOverCache(Run(c, Init(clock), steps[..k]), Run(c, Init(clock), steps[..k + 1]))
    {
      AnswersCached(c, clock, steps, k);
    }
    RunKeepsInv(c, clock, steps);
    MintedSigned(c, clock, steps);
    hide Run, IssuedFor, HandsOverCache, AnswersRise, SignedInRun;
  }

  /** The signer of some step of the run gave the token's signature, for exactly its own key, header
      and claims. */
  ghost predicate SignedInRun(steps: seq<Step>, t: Jwt) {
    exists i | 0 <= i < |steps| && steps[i].Acquire? :: SignedBy(steps[i].signer, t)
  }

  lemma SignedLonger(steps: seq<Step>, step: Step, t: Jwt)
    requires SignedInRun(steps, t) || (step.Acquire? && SignedBy(step.signer, t))
    ensures SignedInRun(steps + [step], t)
  {
    hide SignedBy;
    var all := steps + [step];
    assert all[|steps|] == step && forall i | 0 <= i < |steps| :: all[i] == steps[i];
  }

  lemma StepSigns(c: Credentials, s: State, step: Step)
    ensures forall t | t in Apply(c, s, step).minted ::
              t in s.minted || (step.Acquire? && SignedBy(step.signer, t))
  {
    if step.Acquire? && step.caller in s.waiting {
      SignTeamTokenOutcome(c, s.waiting[step.caller], step.signer);
      hide SignTeamToken, SignedBy, Pem.Normalized;
    }
  }

  lemma {:induction false} MintedSigned(c: Credentials, clock: int, steps: seq<Step>)
    ensures forall t | t in Run(c, Init(clock), steps).minted :: SignedInRun(steps, t)
  {
    if steps != [] {
      var init, last := steps[..|steps| - 1], steps[|steps| - 1];
      MintedSigned(c, clock, init);
      StepSigns(c, Run(c, Init(clock), init), last);
      assert steps == init + [last];
      hide Apply, SignedInRun, SignedBy;
      forall t | t in Run(c, Init(clock), steps).minted ensures SignedInRun(steps, t) {
        SignedLonger(init, last, t);
      }
    }
  }

  lemma AnswersCached(c: Credentials, clock: int, steps: seq<Step>, k: nat)
    requires k < |steps|
    ensures HandsOverCache(Run(c, Init(clock), steps[..k]), Run(c, Init(clock), steps[..k + 1]))
  {
    RunKeepsInv(c, clock, steps[..k]);
    hide Run, Apply, HandsOverCache, AnswersRise, Spaced, MintedOk, CacheIsLastMinted;
    assert steps[..k + 1] == steps[..k] + [steps[k]];
    RunSnoc(c, Init(clock), steps[..k], steps[k]);
    StepHandsOver(c, Run(c, Init(clock), steps[..k]), steps[k]);
  }

  /** A step never lowers the cached expiry and never empties the cache: a caller with an old clock
      reading cannot replace a newer token with an older one. */
  lemma {:induction false} ExpiryNeverFalls(c: Credentials, clock: int, steps: seq<Step>, k: nat)
    requires k <= |steps|
    ensures var s, t := Run(c, Init(clock), steps[..k]), Run(c, Init(clock), steps);
            s.cache.Some? ==>
              t.cache.Some? &&
              t.cache.value.expiresAt >= s.cache.value.expiresAt + 1140 * (|t.minted| - |s.minted|)
    decreases |steps|
  {
    if k == |steps| {
      assert steps[..k] == steps;
    } else {
      var init := steps[..|steps| - 1];
      assert init[..k] == steps[..k];
      ExpiryNeverFalls(c, clock, init, k);
      StepRaisesExpiry(c, Run(c, Init(clock), init), steps[|steps| - 1]);
    }
  }

  lemma StepRaisesExpiry(c: Credentials, s: State, step: Step)
    ensures var t := Apply(c, s, step);
            s.cache.Some? ==>
              t.cache.Some? &&
              t.cache.value.expiresAt >= s.cache.value.expiresAt + 1140 * (|t.minted| - |s.minted|)
  {}

  // ---------------------------------------------------------------------------
  // How often a token is signed
  // ---------------------------------------------------------------------------

  lemma {:induction false} SpacedSum(minted: seq<Jwt>, k: nat)
    requires Spaced(minted) && k < |minted|
    ensures minted[k].claims.exp >= minted[0].claims.exp + 1140 * k
  {
    if k > 0 {
      SpacedSum(minted, k - 1);
    }
  }

  /** However many callers ask, clock readings within `[a, b]` lead to at most
      `(b - a) / 1140 + 1` signings. */
  lemma SigningBound(c: Credentials, clock: int, steps: seq<Step>, a: int, b: int)
    requires forall r | r in Run(c, Init(clock), steps).readings :: a <= r <= b
    ensures a <= b ==> |Run(c, Init(clock), steps).minted| <= (b - a) / 1140 + 1
    ensures a > b ==> Run(c, Init(clock), steps).minted == []
  {
    RunKeepsInv(c, clock, steps);
    var minted := Run(c, Init(clock), steps).minted;
    if minted != [] {
      var k := |minted| - 1;
      assert minted[k].claims.iat in Run(c, Init(clock), steps).readings;
      assert minted[0].claims.iat in Run(c, Init(clock), steps).readings;
      SpacedSum(minted, k);
      hide Run;
      assert 1140 * k <= b - a;
      assert k <= (b - a) / 1140;
    }
  }

  /** One caller who asks every 1140 s from second `a` on: `n` calls. */
  function Schedule(a: int, n: nat, signer: Signer): seq<Step> {
    if n == 0 then []
    else Schedule(a, n - 1, signer) + [Tick(a + 1140 * (n - 1)), ReadClock(0), Acquire(0, signer)]
  }

  ghost predicate Signs(signer: Signer) {
    forall pem, header, claims :: signer(pem, header, claims).Ok?
  }

  lemma RunSnoc(c: Credentials, s: State, steps: seq<Step>, x: Step)
    ensures Run(c, s, steps + [x]) == Apply(c, Run(c, s, steps), x)
  {}

  lemma RunThree(c: Credentials, s: State, steps: seq<Step>, x: Step, y: Step, z: Step)
    ensures Run(c, s, steps + [x, y, z]) == Apply(c, Apply(c, Apply(c, Run(c, s, steps), x), y), z)
  {
    hide Apply, Run;
    RunSnoc(c, s, steps, x);
    RunSnoc(c, s, steps + [x], y);
    RunSnoc(c, s, steps + [x] + [y], z);
    assert steps + [x, y, z] == steps + [x] + [y] + [z];
  }

  /** The bound is reached: for every interval there is a run of one caller whose readings lie in
      it and that signs `(b - a) / 1140 + 1` times. */
  lemma SigningBoundReached(c: Credentials, a: nat, b: int, signer: Signer)
    requires a <= b
    requires Signs(signer)
    ensures var s := Run(c, Init(a), Schedule(a, (b - a) / 1140 + 1, signer));
            |s.minted| == (b - a) / 1140 + 1 && forall r | r in s.readings :: a <= r <= b
  {
    var n := (b - a) / 1140 + 1;
    ScheduleMints(c, a, n, signer);
    hide Run, Schedule;
    assert a + 1140 * (n - 1) <= b;
  }

  lemma {:induction false} ScheduleMints(c: Credentials, a: nat, n: nat, signer: Signer)
    requires Signs(signer)
    ensures var s := Run(c, Init(a), Schedule(a, n, signer));
            |s.minted| == n && s.waiting == map[] &&
            (forall r | r in s.readings :: a <= r <= a + 1140 * (n - 1)) &&
            (if n == 0 then s.cache == None
             else s.cache.Some? && s.cache.value.expiresAt == a + 1140 * (n - 1) + TTL_SECS)
  {
    hide Apply, Signs;
    if n > 0 {
      ScheduleMints(c, a, n - 1, signer);
      var now := a + 1140 * (n - 1);
      var s := Run(c, Init(a), Schedule(a, n - 1, signer));
      RunThree(c, Init(a), Schedule(a, n - 1, signer), Tick(now), ReadClock(0), Acquire(0, signer));
      hide Run;
      CallMints(c, s, now, signer);
    }
  }

  lemma CallMints(c: Credentials, s: State, now: nat, signer: Signer)
    requires Signs(signer)
    requires s.waiting == map[] && (s.cache.Some? ==> NeedsRefresh(s.cache.value.expiresAt, now))
    ensures var t := Apply(c, Apply(c, Apply(c, s, Tick(now)), ReadClock(0)), Acquire(0, signer));
            |t.minted| == |s.minted| + 1 && t.waiting == map[] && t.readings == s.readings + [now] &&
            t.cache.Some? && t.cache.value.expiresAt == now + TTL_SECS
  {}

  // ---------------------------------------------------------------------------
  // A clock that never goes back
  // ---------------------------------------------------------------------------

  ghost predicate ClockAdvances(c: Credentials, clock: int, steps: seq<Step>) {
    forall k | 0 <= k < |steps| && steps[k].Tick? :: steps[k].to >= Run(c, Init(clock), steps[..k]).clock
  }

  /** All readings are in the past, and every token answered expired within the token lifetime of
      the clock at that moment. */
  ghost predicate Fresh(s: State) {
    (forall r | r in s.readings :: r <= UnixNow(s.clock)) &&
    forall i | 0 <= i < |s.answers| && s.answers[i].result.Ok? ::
      s.answers[i].result.value.claims.exp <= s.answers[i].clock + 1200
  }

  lemma StepKeepsFresh(c: Credentials, s: State, step: Step)
    requires Inv(c, s) && Fresh(s)
    requires step.Tick? ==> step.to >= s.clock
    ensures Fresh(Apply(c, s, step))
  {
    if step.Acquire? {
      AcquireKeepsFresh(c, s, step);
    }
  }

  lemma AcquireKeepsFresh(c: Credentials, s: State, step: Step)
    requires Inv(c, s) && Fresh(s) && step.Acquire?
    ensures Fresh(Apply(c, s, step))
  {
    var t := Apply(c, s, step);
    StepKeepsInv(c, s, step);
    assert t.readings == s.readings && t.clock == s.clock;
    if step.caller in s.waiting {
      assert t.answers[..|s.answers|] == s.answers && |t.answers| == |s.answers| + 1;
      var a := t.answers[|s.answers|];
      assert a.clock == UnixNow(s.clock);
      hide Apply, ServeOrMint, Spaced, AnswersRise, CacheIsLastMinted, UnixNow;
      NewAnswerFresh(c, t, a);
      assert forall i | 0 <= i < |s.answers| :: t.answers[i] == t.answers[..|s.answers|][i];
    }
  }

  lemma NewAnswerFresh(c: Credentials, t: State, a: Answer)
    requires Inv(c, t) && a in t.answers && (forall r | r in t.readings :: r <= a.clock)
    ensures a.result.Ok? ==> a.result.value.claims.exp <= a.clock + 1200
  {
    hide Spaced, AnswersRise, CacheIsLastMinted, Pem.Normalized;
    if a.result.Ok? {
      assert AnswerOk(t, a);
      var k :| 0 <= k < |t.minted| && t.minted[k] == a.result.value;
      assert IssuedFor(c, t.minted[k]);
    }
  }

  /** If the shared clock never goes back, no caller ever gets a token that expires more than
      1200 s after the clock at the time of the answer. */
  lemma {:induction false} FreshTokens(c: Credentials, clock: int, steps: seq<Step>)
    requires ClockAdvances(c, clock, steps)
    ensures Fresh(Run(c, Init(clock), steps))
  {
    if steps != [] {
      var init, last := steps[..|steps| - 1], steps[|steps| - 1];
      assert ClockAdvances(c, clock, init) by {
        assert forall k | 0 <= k < |init| :: init[k] == steps[k] && init[..k] == steps[..k];
      }
      FreshTokens(c, clock, init);
      RunKeepsInv(c, clock, init);
      hide Inv, Fresh, Apply;
      StepKeepsFresh(c, Run(c, Init(clock), init), last);
    }
  }
}
