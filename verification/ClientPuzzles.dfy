/**
 The rate limiter in front of the enclave: requests are counted per client and overall in a window of
 fixed length, requests beyond the limits are challenged, and a challenge is redeemed at most once.
 */
module ClientPuzzles {
  import opened Wrappers
  import opened Texts

  datatype Challenge = Challenge(
    clientId: string, serverSeed: string, timestampMs: int, expiresAtMs: int, difficultyMask: string, challengeHash: string)

  datatype Solution = Solution(
    clientId: string, serverSeed: string, timestampMs: int, expiresAtMs: int, difficultyMask: string, challengeHash: string,
    nonce: string)

  /** The configuration; the limit is a whole number of requests. */
  datatype Config = Config(
    windowMs: int, limit: nat, challengeTtlMs: int, maskText: string,
    challengeHash: (string, string, int) -> string,   // over seed, client and time
    leadingBitsClear: (string, string) -> bool)       // of the digest of challenge hash and nonce, under the mask
  {
    ghost predicate Valid() {
      windowMs > 0 && limit > 0 && challengeTtlMs > 0
    }
  }

  datatype Limiter = Limiter(windowStart: int, total: nat, counts: map<string, nat>, challenges: map<string, Challenge>)

  const ANONYMOUS := "anonymous"

  function Normalize(clientId: Option<string>): (client: string)
    ensures IsTrimmed(client)
  {
    var candidate := Trim(if clientId.Some? then clientId.value else ANONYMOUS);
    if |candidate| > 0 then candidate else ANONYMOUS
  }

  lemma NormalizeOfTrimmed(client: string)
    requires IsTrimmed(client)
    ensures Normalize(Some(client)) == client
  {
    TrimOfTrimmed(client);
  }

  /** Normalising twice, as `recordRequest` does, is normalising once. */
  lemma NormalizeIsIdempotent(clientId: Option<string>)
    ensures Normalize(Some(Normalize(clientId))) == Normalize(clientId)
  {
    NormalizeOfTrimmed(Normalize(clientId));
  }

  function CountOf(s: Limiter, client: string): nat {
    if client in s.counts then s.counts[client] else 0
  }

  // ----- steps

  function Advance(cfg: Config, s: Limiter, now: int): Limiter {
    if now - s.windowStart < cfg.windowMs then s else Limiter(now, 0, map[], map[])
  }

  function Counted(s: Limiter, client: string): Limiter {
    s.(total := s.total + 1, counts := s.counts[client := CountOf(s, client) + 1])
  }

  function Record(cfg: Config, s: Limiter, client: string, now: int): Limiter {
    Counted(Advance(cfg, s, now), client)
  }

  predicate UnderPressure(cfg: Config, s: Limiter, client: string) {
    CountOf(s, client) > cfg.limit || s.total > cfg.limit * 3
  }

  function NewChallenge(cfg: Config, client: string, now: int, seed: string): Challenge {
    Challenge(client, seed, now, now + cfg.challengeTtlMs, cfg.maskText, cfg.challengeHash(seed, client, now))
  }

  predicate HasLiveChallenge(s: Limiter, client: string, now: int) {
    client in s.challenges && s.challenges[client].expiresAtMs > now
  }

  function Issue(cfg: Config, s: Limiter, client: string, now: int, seed: string): Limiter {
    if HasLiveChallenge(s, client, now) then s
    else s.(challenges := s.challenges[client := NewChallenge(cfg, client, now, seed)])
  }

  predicate Matches(c: Challenge, sol: Solution) {
    && c.challengeHash == sol.challengeHash && c.serverSeed == sol.serverSeed && c.timestampMs == sol.timestampMs
    && c.expiresAtMs == sol.expiresAtMs && c.difficultyMask == sol.difficultyMask
  }

  predicate Redeems(cfg: Config, s: Limiter, sol: Solution, now: int) {
    var client := Normalize(Some(sol.clientId));
    && client in s.challenges && Matches(s.challenges[client], sol)
    && now <= s.challenges[client].expiresAtMs
    && cfg.leadingBitsClear(s.challenges[client].challengeHash, sol.nonce)
  }

  // A challenge goes away when it is redeemed, and when a matching answer comes too late.
  function Answer(cfg: Config, s: Limiter, sol: Solution, now: int): Limiter {
    var client := Normalize(Some(sol.clientId));
    if client in s.challenges && Matches(s.challenges[client], sol)
       && (now > s.challenges[client].expiresAtMs || Redeems(cfg, s, sol, now))
    then s.(challenges := s.challenges - {client}) else s
  }

  // ----- the engine; the clock and the random seed are arguments

  class EnclaveClientPuzzleEngine {
    const cfg: Config
    var currentWindowStartMs: int
    var totalRequestsThisWindow: nat
    var windowCounts: map<string, nat>
    var activeChallenges: map<string, Challenge>

    ghost function State(): Limiter
      reads this
    {
      Limiter(currentWindowStartMs, totalRequestsThisWindow, windowCounts, activeChallenges)
    }

    constructor (cfg: Config, now: int)
      ensures this.cfg == cfg && State() == Limiter(now, 0, map[], map[])
    {
      this.cfg := cfg;
      currentWindowStartMs, totalRequestsThisWindow, windowCounts, activeChallenges := now, 0, map[], map[];
    }

    method AdvanceWindowIfNeeded(now: int)
      modifies this
      ensures State() == Advance(cfg, old(State()), now)
    {
      if now - currentWindowStartMs < cfg.windowMs {
        return;
      }
      currentWindowStartMs, totalRequestsThisWindow := now, 0;
      windowCounts, activeChallenges := map[], map[];
    }

    method RecordRequest(clientId: Option<string>, now: int) returns (challenged: bool)
      modifies this
      ensures State() == Record(cfg, old(State()), Normalize(clientId), now)
      ensures challenged <==> UnderPressure(cfg, State(), Normalize(clientId))
    {
      var client := Normalize(clientId);
      NormalizeIsIdempotent(clientId);
      AdvanceWindowIfNeeded(now);
      Count(client);
      challenged := IsUnderPressure(Some(client));
    }

    method Count(client: string)
      modifies this
      ensures State() == Counted(old(State()), client)
    {
      totalRequestsThisWindow := totalRequestsThisWindow + 1;
      var currentCount := if client in windowCounts then windowCounts[client] else 0;
      windowCounts := windowCounts[client := currentCount + 1];
    }

    method IsUnderPressure(clientId: Option<string>) returns (b: bool)
      ensures b <==> UnderPressure(cfg, State(), Normalize(clientId))
    {
      var client := Normalize(clientId);
      var clientCount := if client in windowCounts then windowCounts[client] else 0;
      b := clientCount > cfg.limit || totalRequestsThisWindow > cfg.limit * 3;
    }

    method GetOrCreateChallenge(clientId: Option<string>, now: int, seed: string) returns (c: Challenge)
      modifies this`activeChallenges
      ensures State() == Issue(cfg, old(State()), Normalize(clientId), now, seed)
      ensures Normalize(clientId) in activeChallenges && c == activeChallenges[Normalize(clientId)]
    {
      var client := Normalize(clientId);
      if client in activeChallenges && activeChallenges[client].expiresAtMs > now {
        return activeChallenges[client];
      }
      c := NewChallenge(cfg, client, now, seed);
      activeChallenges := activeChallenges[client := c];
    }

    method VerifyPuzzleSolution(sol: Solution, now: int) returns (valid: bool)
      modifies this`activeChallenges
      ensures State() == Answer(cfg, old(State()), sol, now)
      ensures valid <==> Redeems(cfg, old(State()), sol, now)
      ensures valid <==>
        var client, held := Normalize(Some(sol.clientId)), old(activeChallenges);
        && client in held
        && held[client].challengeHash == sol.challengeHash && held[client].serverSeed == sol.serverSeed
        && held[client].timestampMs == sol.timestampMs && held[client].expiresAtMs == sol.expiresAtMs
        && held[client].difficultyMask == sol.difficultyMask
        && now <= held[client].expiresAtMs && cfg.leadingBitsClear(held[client].challengeHash, sol.nonce)
      ensures valid ==> activeChallenges == old(activeChallenges) - {Normalize(Some(sol.clientId))}
    {
      var client := Normalize(Some(sol.clientId));
      if client !in activeChallenges {
        return false;
      }
      var stored := activeChallenges[client];
      if stored.challengeHash != sol.challengeHash || stored.serverSeed != sol.serverSeed
         || stored.timestampMs != sol.timestampMs || stored.expiresAtMs != sol.expiresAtMs
         || stored.difficultyMask != sol.difficultyMask {
        return false;
      }
      if now > stored.expiresAtMs || now > sol.expiresAtMs {
        activeChallenges := activeChallenges - {client};
        return false;
      }
      valid := cfg.leadingBitsClear(stored.challengeHash, sol.nonce);
      if valid {
        activeChallenges := activeChallenges - {client};
      }
    }
  }

  // ----- runs

  datatype Op =
    | Request(client: string, now: int)
    | Challenging(client: string, now: int, seed: string)
    | Answering(solution: Solution, now: int)

  function Apply(cfg: Config, s: Limiter, op: Op): Limiter {
    match op
    case Request(client, now) => Record(cfg, s, client, now)
    case Challenging(client, now, seed) => Issue(cfg, s, client, now, seed)
    case Answering(sol, now) => Answer(cfg, s, sol, now)
  }

  function After(cfg: Config, s: Limiter, ops: seq<Op>): Limiter
    decreases |ops|
  {
    if ops == [] then s else After(cfg, Apply(cfg, s, ops[0]), ops[1..])
  }

  /** A request that is let through without a challenge. */
  predicate Free(cfg: Config, s: Limiter, op: Op) {
    op.Request? && !UnderPressure(cfg, Record(cfg, s, op.client, op.now), op.client)
  }

  function FreeOf(cfg: Config, s: Limiter, ops: seq<Op>, client: string): nat
    decreases |ops|
  {
    if ops == [] then 0
    else (if Free(cfg, s, ops[0]) && ops[0].client == client then 1 else 0) + FreeOf(cfg, Apply(cfg, s, ops[0]), ops[1..], client)
  }

  function FreeInAll(cfg: Config, s: Limiter, ops: seq<Op>): nat
    decreases |ops|
  {
    if ops == [] then 0
    else (if Free(cfg, s, ops[0]) then 1 else 0) + FreeInAll(cfg, Apply(cfg, s, ops[0]), ops[1..])
  }

  function Budget(cfg: Config, s: Limiter, client: string): nat {
    if CountOf(s, client) >= cfg.limit then 0 else cfg.limit - CountOf(s, client)
  }

  function BudgetInAll(cfg: Config, s: Limiter): nat {
    if s.total >= 3 * cfg.limit then 0 else 3 * cfg.limit - s.total
  }

  // All calls happen before the current window ends.
  ghost predicate BeforeWindowEnds(cfg: Config, s: Limiter, ops: seq<Op>) {
    forall i :: 0 <= i < |ops| ==> ops[i].now - s.windowStart < cfg.windowMs
  }

  // All calls happen in a span shorter than the window length, starting at `from`.
  ghost predicate InSpan(cfg: Config, from: int, ops: seq<Op>) {
    forall i :: 0 <= i < |ops| ==> from <= ops[i].now < from + cfg.windowMs
  }

  /** Within a window a client gets no more free requests than are left of the limit, all together of three times it. */
  lemma {:induction false} FreeWithinWindow(cfg: Config, s: Limiter, ops: seq<Op>, client: string)
    requires cfg.Valid() && BeforeWindowEnds(cfg, s, ops)
    ensures FreeOf(cfg, s, ops, client) <= Budget(cfg, s, client)
    ensures FreeInAll(cfg, s, ops) <= BudgetInAll(cfg, s)
    decreases |ops|
  {
    if ops != [] {
      FreeWithinWindow(cfg, Apply(cfg, s, ops[0]), ops[1..], client);
    }
  }

  lemma {:induction false} FreeWithinSpan(cfg: Config, s: Limiter, from: int, ops: seq<Op>, client: string)
    requires cfg.Valid() && s.windowStart <= from && InSpan(cfg, from, ops)
    ensures FreeOf(cfg, s, ops, client) <= Budget(cfg, s, client) + cfg.limit
    ensures FreeInAll(cfg, s, ops) <= BudgetInAll(cfg, s) + 3 * cfg.limit
    decreases |ops|
  {
    if ops != [] {
      var s' := Apply(cfg, s, ops[0]);
      if s'.windowStart == s.windowStart {
        FreeWithinSpan(cfg, s', from, ops[1..], client);
      } else {
        FreeWithinWindow(cfg, s', ops[1..], client);
      }
    }
  }

  // ----- single calls, spelled out

  /** A request is let through exactly if, in the window it falls in, it exceeds neither limit. */
  lemma FreeSpelledOut(cfg: Config, s: Limiter, client: string, now: int)
    ensures now - s.windowStart < cfg.windowMs ==>
      (Free(cfg, s, Request(client, now)) <==>
         (if client in s.counts then s.counts[client] else 0) + 1 <= cfg.limit && s.total + 1 <= 3 * cfg.limit)
    ensures now - s.windowStart >= cfg.windowMs ==> (Free(cfg, s, Request(client, now)) <==> 1 <= cfg.limit)
  {
  }

  /** The challenge a client gets: the one it holds if that is still live, else a new one, which lives for the set time. */
  lemma IssueSpelledOut(cfg: Config, s: Limiter, client: string, now: int, seed: string)
    ensures var s' := Issue(cfg, s, client, now, seed);
      && client in s'.challenges
      && (if client in s.challenges && s.challenges[client].expiresAtMs > now then s' == s
          else
            && s' == s.(challenges := s.challenges[client := s'.challenges[client]])
            && s'.challenges[client] == Challenge(client, seed, now, now + cfg.challengeTtlMs, cfg.maskText,
                                                  cfg.challengeHash(seed, client, now)))
  {
  }

  /** A client id is trimmed; an absent or blank one is anonymous. */
  lemma NormalizeSpelledOut(s: string)
    ensures Normalize(None) == "anonymous"
    ensures Blank(s) ==> Normalize(Some(s)) == "anonymous"
    ensures IsTrimmed(s) ==> Normalize(Some(s)) == s
  {
    TrimOfTrimmed("anonymous");
    if IsTrimmed(s) {
      TrimOfTrimmed(s);
    }
  }

  // ----- what every run keeps

  ghost function Sum(m: map<string, nat>): nat
    decreases |m|
  {
    if m == map[] then 0 else var k :| k in m; m[k] + Sum(m - {k})
  }

  lemma {:induction false} SumWithout(m: map<string, nat>, k: string)
    requires k in m
    ensures Sum(m) == m[k] + Sum(m - {k})
    decreases |m|
  {
    var j :| j in m && Sum(m) == m[j] + Sum(m - {j});
    if j != k {
      SumWithout(m - {j}, k);
      SumWithout(m - {k}, j);
      assert m - {j} - {k} == m - {k} - {j};
    }
  }

  lemma SumUpdate(m: map<string, nat>, k: string, v: nat)
    ensures Sum(m[k := v]) + (if k in m then m[k] else 0) == Sum(m) + v
  {
    SumWithout(m[k := v], k);
    if k in m {
      SumWithout(m, k);
      assert m[k := v] - {k} == m - {k};
    } else {
      assert m[k := v] - {k} == m;
    }
  }

  ghost predicate Inv(s: Limiter, now: int) {
    s.total == Sum(s.counts) && s.windowStart <= now
  }

  ghost predicate Monotone(start: int, ops: seq<Op>) {
    && (forall i :: 0 <= i < |ops| ==> start <= ops[i].now)
    && (forall i, j :: 0 <= i < j < |ops| ==> ops[i].now <= ops[j].now)
  }

  /** Under a clock that does not go back, the total is the sum of the client counts after every call. */
  lemma {:induction false} RunsKeepInv(cfg: Config, s: Limiter, start: int, ops: seq<Op>)
    requires cfg.Valid() && Inv(s, start) && Monotone(start, ops)
    ensures Inv(After(cfg, s, ops), if ops == [] then start else ops[|ops| - 1].now)
    decreases |ops|
  {
    if ops != [] {
      var s', op := Apply(cfg, s, ops[0]), ops[0];
      if op.Request? {
        var s1 := Advance(cfg, s, op.now);
        SumUpdate(s1.counts, op.client, CountOf(s1, op.client) + 1);
      }
      RunsKeepInv(cfg, s', op.now, ops[1..]);
    }
  }

  /**
   From the start of the engine on, in any time span shorter than the window a client gets at most twice the
   limit through without a challenge, and all clients together at most six times it.
   */
  lemma {:induction false} RateBound(cfg: Config, start: int, before: seq<Op>, from: int, ops: seq<Op>, client: string)
    requires cfg.Valid() && Monotone(start, before) && InSpan(cfg, from, ops)
    requires start <= from && forall i :: 0 <= i < |before| ==> before[i].now <= from
    ensures var s := After(cfg, Limiter(start, 0, map[], map[]), before);
      && s.total == Sum(s.counts)
      && FreeOf(cfg, s, ops, client) <= 2 * cfg.limit
      && FreeInAll(cfg, s, ops) <= 6 * cfg.limit
  {
    RunsKeepInv(cfg, Limiter(start, 0, map[], map[]), start, before);
    FreeWithinSpan(cfg, After(cfg, Limiter(start, 0, map[], map[]), before), from, ops, client);
  }

  function Burst(client: string, now: int, k: nat): (ops: seq<Op>)
    ensures |ops| == k
  {
    seq(k, _ => Request(client, now))
  }

  lemma {:induction false} FreeOfParts(cfg: Config, s: Limiter, a: seq<Op>, b: seq<Op>, client: string)
    ensures FreeOf(cfg, s, a + b, client) == FreeOf(cfg, s, a, client) + FreeOf(cfg, After(cfg, s, a), b, client)
    decreases |a|
  {
    if a == [] {
      assert a + b == b;
    } else {
      assert (a + b)[1..] == a[1..] + b;
      FreeOfParts(cfg, Apply(cfg, s, a[0]), a[1..], b, client);
    }
  }

  lemma {:induction false} BurstWithinLimit(cfg: Config, s: Limiter, client: string, now: int, k: nat)
    requires cfg.Valid() && (k == 0 || now - s.windowStart < cfg.windowMs)
    requires CountOf(s, client) + k <= cfg.limit && s.total + k <= 3 * cfg.limit
    ensures FreeOf(cfg, s, Burst(client, now, k), client) == k
    ensures After(cfg, s, Burst(client, now, k)).windowStart == s.windowStart
    decreases k
  {
    if k > 0 {
      assert Burst(client, now, k)[1..] == Burst(client, now, k - 1);
      BurstWithinLimit(cfg, Apply(cfg, s, Request(client, now)), client, now, k - 1);
    }
  }

  /** The factor two is reached: a full limit in the last instant of a window, and another in the next. */
  lemma RateBoundIsReached(cfg: Config, start: int, client: string)
    requires cfg.Valid() && cfg.windowMs > 1
    ensures var s, end := Limiter(start, 0, map[], map[]), start + cfg.windowMs;
      var ops := Burst(client, end - 1, cfg.limit) + Burst(client, end, cfg.limit);
      InSpan(cfg, end - 1, ops) && FreeOf(cfg, s, ops, client) == 2 * cfg.limit
  {
    var s, end := Limiter(start, 0, map[], map[]), start + cfg.windowMs;
    var first, second := Burst(client, end - 1, cfg.limit), Burst(client, end, cfg.limit);
    FreeOfParts(cfg, s, first, second, client);
    BurstWithinLimit(cfg, s, client, end - 1, cfg.limit);
    var s1 := After(cfg, s, first);
    assert second[1..] == Burst(client, end, cfg.limit - 1);
    BurstWithinLimit(cfg, Apply(cfg, s1, second[0]), client, end, cfg.limit - 1);
  }

  // ----- challenges

  function Issued(cfg: Config, s: Limiter, ops: seq<Op>, client: string): nat
    decreases |ops|
  {
    if ops == [] then 0
    else
      var op := ops[0];
      (if op.Challenging? && op.client == client && !HasLiveChallenge(s, client, op.now) then 1 else 0)
      + Issued(cfg, Apply(cfg, s, op), ops[1..], client)
  }

  function Redeemed(cfg: Config, s: Limiter, ops: seq<Op>, client: string): nat
    decreases |ops|
  {
    if ops == [] then 0
    else
      var op := ops[0];
      (if op.Answering? && Normalize(Some(op.solution.clientId)) == client && Redeems(cfg, s, op.solution, op.now) then 1 else 0)
      + Redeemed(cfg, Apply(cfg, s, op), ops[1..], client)
  }

  /** Over any run, redemptions never outnumber the challenges there were. */
  lemma {:induction false} ChallengesRedeemOnce(cfg: Config, s: Limiter, ops: seq<Op>, client: string)
    ensures Redeemed(cfg, s, ops, client) <= Issued(cfg, s, ops, client) + if client in s.challenges then 1 else 0
    decreases |ops|
  {
    if ops != [] {
      ChallengesRedeemOnce(cfg, Apply(cfg, s, ops[0]), ops[1..], client);
    }
  }

  /** No challenge is redeemed twice: after a redemption no answer of the client succeeds before a new challenge. */
  lemma {:induction false} RedeemedIsGone(cfg: Config, s: Limiter, sol: Solution, now: int, ops: seq<Op>)
    requires Redeems(cfg, s, sol, now)
    requires Issued(cfg, Answer(cfg, s, sol, now), ops, Normalize(Some(sol.clientId))) == 0
    ensures Redeemed(cfg, Answer(cfg, s, sol, now), ops, Normalize(Some(sol.clientId))) == 0
  {
    ChallengesRedeemOnce(cfg, Answer(cfg, s, sol, now), ops, Normalize(Some(sol.clientId)));
  }

  /** The answers whose nonce passes the digest test for the challenge the client holds, before it expires. */
  function Solved(cfg: Config, s: Limiter, ops: seq<Op>, client: string): nat
    decreases |ops|
  {
    if ops == [] then 0
    else
      var op := ops[0];
      (if op.Answering? && Normalize(Some(op.solution.clientId)) == client && client in s.challenges
          && op.now <= s.challenges[client].expiresAtMs
          && cfg.leadingBitsClear(s.challenges[client].challengeHash, op.solution.nonce) then 1 else 0)
      + Solved(cfg, Apply(cfg, s, op), ops[1..], client)
  }

  /** Nothing is redeemed without work: successes never outnumber the answers that pass the digest test. */
  lemma {:induction false} SuccessTakesWork(cfg: Config, s: Limiter, ops: seq<Op>, client: string)
    ensures Redeemed(cfg, s, ops, client) <= Solved(cfg, s, ops, client)
    decreases |ops|
  {
    if ops != [] {
      SuccessTakesWork(cfg, Apply(cfg, s, ops[0]), ops[1..], client);
    }
  }

  /** The challenge a client holds was issued to it by the engine. */
  ghost predicate OwnChallenges(cfg: Config, s: Limiter) {
    forall client :: client in s.challenges ==>
      var c := s.challenges[client];
      && c.clientId == client && c.expiresAtMs == c.timestampMs + cfg.challengeTtlMs
      && c.challengeHash == cfg.challengeHash(c.serverSeed, client, c.timestampMs)
  }

  lemma {:induction false} RunsKeepOwnChallenges(cfg: Config, s: Limiter, ops: seq<Op>)
    requires OwnChallenges(cfg, s)
    ensures OwnChallenges(cfg, After(cfg, s, ops))
    decreases |ops|
  {
    if ops != [] {
      RunsKeepOwnChallenges(cfg, Apply(cfg, s, ops[0]), ops[1..]);
    }
  }
}
