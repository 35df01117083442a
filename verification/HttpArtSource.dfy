/**
 One fetch from an upstream: the retry loop over whatever the upstream answers, the libretro
 mirror behind it, and the cooldown deadline that many fetches raise at once without a lock.
 */
module HttpArtSource {
  import opened Wrappers

  const MAX_RETRIES := 2
  const MAX_RETRY_AFTER := 30

  /** Everything one GET can come to: no answer, an answer whose body breaks off while it is read, or an answer. */
  datatype Response =
    | TransportFailure
    | BodyFailure
    | NotFound
    | Throttled(retryAfter: Option<int>)
    | UnexpectedStatus
    | TooLarge
    | EmptyBody
    | Symlink(target: string)
    | NotArt
    | Image(blob: string)

  /** What a fetch returns, or the exception it ends in: that of an outage, or the one the broken read threw. */
  datatype Result = Art(blob: string) | NoArt | SourceUnavailable | BodyBroken

  /** What an attempt tells the loop: an answer, a wait, a hop, a failure, or an exception that passes it by. */
  datatype AttemptResult = Answer(result: Result) | Backoff(delay: int) | Follow(target: string) | Failed | Escaped

  /** Seconds an upstream asked for, made usable. */
  function ReadRetryAfter(header: Option<int>): (delay: int)
    ensures 0 <= delay <= 30
    ensures header.Some? && 0 <= header.value <= 30 ==> delay == header.value
    ensures header.Some? && header.value < 0 ==> delay == 0
    ensures header.Some? && header.value > 30 ==> delay == 30
    ensures header.None? ==> delay == 1
  {
    var requested := if header.Some? then header.value else 1;
    if requested < 0 then 0 else if requested > MAX_RETRY_AFTER then MAX_RETRY_AFTER else requested
  }

  function Attempt(response: Response, attempt: nat): AttemptResult {
    match response
    case TransportFailure => Failed
    case BodyFailure => Escaped
    case Throttled(header) => if attempt >= MAX_RETRIES then Answer(NoArt) else Backoff(ReadRetryAfter(header))
    case Symlink(target) => Follow(target)
    case Image(blob) => Answer(Art(blob))
    case NotFound => Answer(NoArt)
    case UnexpectedStatus => Answer(NoArt)
    case TooLarge => Answer(NoArt)
    case EmptyBody => Answer(NoArt)
    case NotArt => Answer(NoArt)
  }

  // ----- What a fetch should come to, said of the answers alone

  /** Some request before the `k`-th was answered by a symlink. */
  ghost predicate Hopped(responses: nat -> Response, k: nat) {
    exists j: nat :: j < k && responses(j).Symlink?
  }

  /** The fetch has nothing left to try after request `k`. */
  ghost predicate Final(responses: nat -> Response, k: nat) {
    match responses(k)
    case TransportFailure => k >= 2
    case Throttled(_) => k >= 2
    case Symlink(_) => Hopped(responses, k)
    case _ => true
  }

  function ResultOf(response: Response): Result {
    match response
    case Image(blob) => Art(blob)
    case TransportFailure => SourceUnavailable
    case BodyFailure => BodyBroken
    case _ => NoArt
  }

  /** The fetch is over after `n` requests, and not before. */
  ghost predicate Ends(responses: nat -> Response, n: nat) {
    n >= 1 && Final(responses, n - 1) && forall k: nat :: k < n - 1 ==> !Final(responses, k)
  }

  /** The URL a request goes to: the original, or the one symlink's target. */
  ghost predicate GoesTo(responses: nat -> Response, url: string, k: nat, asked: string) {
    if Hopped(responses, k) then
      exists j: nat :: j < k && responses(j).Symlink? && asked == responses(j).target && !Hopped(responses, j)
    else asked == url
  }

  /** The back-offs announced by the first `n` answers, in order: each one arms the cooldown. */
  ghost function CooldownsBefore(responses: nat -> Response, n: nat): seq<int> {
    if n == 0 then []
    else CooldownsBefore(responses, n - 1)
         + if responses(n - 1).Throttled? then [ReadRetryAfter(responses(n - 1).retryAfter)] else []
  }

  lemma BeforeAnyRequest(responses: nat -> Response, url: string)
    ensures !Hopped(responses, 0) && GoesTo(responses, url, 0, url) && CooldownsBefore(responses, 0) == []
  {
  }

  lemma AfterRequest(responses: nat -> Response, url: string, k: nat, current: string)
    requires GoesTo(responses, url, k, current)
    ensures Hopped(responses, k + 1) <==> Hopped(responses, k) || responses(k).Symlink?
    ensures responses(k).Symlink? && !Hopped(responses, k) ==> GoesTo(responses, url, k + 1, responses(k).target)
    ensures !responses(k).Symlink? ==> GoesTo(responses, url, k + 1, current)
    ensures CooldownsBefore(responses, k + 1) == CooldownsBefore(responses, k)
            + if responses(k).Throttled? then [ReadRetryAfter(responses(k).retryAfter)] else []
  {
    hide CooldownsBefore;
    CooldownsStep(responses, k);
    if responses(k).Symlink? {
      assert Hopped(responses, k + 1);
    }
  }

  lemma CooldownsStep(responses: nat -> Response, k: nat)
    ensures CooldownsBefore(responses, k + 1) == CooldownsBefore(responses, k)
            + if responses(k).Throttled? then [ReadRetryAfter(responses(k).retryAfter)] else []
  {
  }

  /**
   The loop asks until the first final answer and returns what that answer means: at most
   two retries, and one more request when a symlink is followed. It fails exactly on a
   transport failure that outlasts the retries, and on the first body that breaks off.
   */
  method TryGet(url: string, responses: nat -> Response)
    returns (result: Result, requests: nat, ghost asked: seq<string>, cooldowns: seq<int>)
    ensures 1 <= requests <= 4
    ensures requests == 4 ==> Hopped(responses, 3)
    ensures Ends(responses, requests)
    ensures result == ResultOf(responses(requests - 1))
    ensures result.SourceUnavailable? <==> responses(requests - 1).TransportFailure?
    ensures result.SourceUnavailable? ==> requests >= 3
    ensures result.BodyBroken? <==> exists k: nat :: k < requests && responses(k).BodyFailure?
    ensures forall k: nat :: k < requests && responses(k).BodyFailure? ==> k == requests - 1
    ensures |asked| == requests && forall k :: 0 <= k < requests ==> GoesTo(responses, url, k, asked[k])
    ensures cooldowns == CooldownsBefore(responses, requests)
  {
    hide Hopped, GoesTo, CooldownsBefore, ReadRetryAfter;
    BeforeAnyRequest(responses, url);
    var followed, current, attempt := false, url, 0;
    asked, cooldowns := [], [];
    while true
      invariant attempt <= MAX_RETRIES + 1
      invariant attempt == MAX_RETRIES + 1 ==> followed
      invariant forall k: nat :: k < attempt ==> !Final(responses, k)
      invariant forall k: nat :: k < attempt ==> !responses(k).BodyFailure?
      invariant followed == Hopped(responses, attempt)
      invariant GoesTo(responses, url, attempt, current)
      invariant |asked| == attempt && forall k :: 0 <= k < attempt ==> GoesTo(responses, url, k, asked[k])
      invariant cooldowns == CooldownsBefore(responses, attempt)
      decreases MAX_RETRIES + 2 - attempt
    {
      AfterRequest(responses, url, attempt, current);
      var response := responses(attempt);
      asked := asked + [current];
      if response.Throttled? {
        cooldowns := cooldowns + [ReadRetryAfter(response.retryAfter)];
      }
      var r := Attempt(response, attempt);
      if r.Escaped? {
        return BodyBroken, attempt + 1, asked, cooldowns;
      }
      if r.Follow? && !followed {
        followed, current := true, r.target;
        attempt := attempt + 1;
        continue;
      }
      if r.Failed? {
        if attempt >= MAX_RETRIES {
          return SourceUnavailable, attempt + 1, asked, cooldowns;
        }
        attempt := attempt + 1;
        continue;
      }
      if !r.Backoff? {
        return if r.Answer? then r.result else NoArt, attempt + 1, asked, cooldowns;
      }
      attempt := attempt + 1;
    }
  }

  lemma EndsOnce(responses: nat -> Response, m: nat, n: nat)
    requires Ends(responses, m) && Ends(responses, n)
    ensures m == n
  {
  }

  // ----- The mirror behind the primary

  /** What a fetch comes to, however many requests it takes. */
  ghost predicate ComesTo(responses: nat -> Response, result: Result) {
    exists n: nat :: Ends(responses, n) && result == ResultOf(responses(n - 1))
  }

  lemma ComesToOne(responses: nat -> Response, r1: Result, r2: Result)
    requires ComesTo(responses, r1) && ComesTo(responses, r2)
    ensures r1 == r2
  {
    var m: nat :| Ends(responses, m) && r1 == ResultOf(responses(m - 1));
    var n: nat :| Ends(responses, n) && r2 == ResultOf(responses(n - 1));
    EndsOnce(responses, m, n);
  }

  /**
   A title with no URL has no art and costs no request. Otherwise the mirror is asked, once,
   after a miss and after an outage; it is not asked after art, nor after a body that broke
   off, whose exception the handler for outages does not catch.
   */
  method TryFetch(url: Option<string>, mirrorUrl: Option<string>, primary: nat -> Response, mirror: nat -> Response)
    returns (result: Result, requests: nat, mirrorRequests: nat)
    ensures url.None? ==> result == NoArt && requests == mirrorRequests == 0
    ensures url.Some? ==> Ends(primary, requests)
    ensures mirrorRequests > 0 ==> Ends(mirror, mirrorRequests)
    ensures mirrorRequests > 0 <==>
              url.Some? && mirrorUrl.Some? && (ComesTo(primary, NoArt) || ComesTo(primary, SourceUnavailable))
    ensures url.Some? ==> ComesTo(if mirrorRequests > 0 then mirror else primary, result)
    ensures url.Some? && ComesTo(primary, BodyBroken) ==> result == BodyBroken
    ensures result == SourceUnavailable && mirrorUrl.Some? ==> ComesTo(mirror, SourceUnavailable)
  {
    if url.None? {
      return NoArt, 0, 0;
    }
    var cooldowns;
    ghost var asked;
    mirrorRequests := 0;
    result, requests, asked, cooldowns := TryGet(url.value, primary);
    ghost var first := result;
    if (result.NoArt? || result.SourceUnavailable?) && mirrorUrl.Some? {
      result, mirrorRequests, asked, cooldowns := TryGet(mirrorUrl.value, mirror);
    }
    forall r | ComesTo(primary, r) ensures r == first {
      ComesToOne(primary, r, first);
    }
  }

  // ----- The shared cooldown deadline

  /** One call raising the deadline: about to read it, about to swap, or done. */
  datatype Raiser = Reading(until: int) | Swapping(until: int, seen: int) | Finished(until: int)

  datatype Cooldown = Cooldown(deadline: int, raisers: map<nat, Raiser>)

  datatype CooldownStep = Begin(id: nat, until: int) | Read(id: nat) | Swap(id: nat)

  predicate CanStep(s: Cooldown, a: CooldownStep) {
    match a
    case Begin(id, _) => id !in s.raisers
    case Read(id) => id in s.raisers && s.raisers[id].Reading?
    case Swap(id) => id in s.raisers && s.raisers[id].Swapping?
  }

  function Raise(s: Cooldown, a: CooldownStep): Cooldown
    requires CanStep(s, a)
  {
    match a
    case Begin(id, until) => s.(raisers := s.raisers[id := Reading(until)])
    case Read(id) =>
      var until := s.raisers[id].until;
      s.(raisers := s.raisers[id := if s.deadline >= until then Finished(until) else Swapping(until, s.deadline)])
    case Swap(id) =>
      var r := s.raisers[id];
      if s.deadline == r.seen then Cooldown(r.until, s.raisers[id := Finished(r.until)])
      else s.(raisers := s.raisers[id := Reading(r.until)])
  }

  predicate CanRaise(s: Cooldown, steps: seq<CooldownStep>)
    decreases |steps|
  {
    steps == [] || (CanStep(s, steps[0]) && CanRaise(Raise(s, steps[0]), steps[1..]))
  }

  function RaiseAll(s: Cooldown, steps: seq<CooldownStep>): Cooldown
    requires CanRaise(s, steps)
    decreases |steps|
  {
    if steps == [] then s else RaiseAll(Raise(s, steps[0]), steps[1..])
  }

  /** Swaps only ever raise, finished calls are satisfied, and the deadline is one that was asked for. */
  ghost predicate Settled(initial: int, s: Cooldown) {
    && (forall id :: id in s.raisers && s.raisers[id].Swapping? ==>
          s.raisers[id].seen < s.raisers[id].until && s.raisers[id].seen <= s.deadline)
    && (forall id :: id in s.raisers && s.raisers[id].Finished? ==> s.raisers[id].until <= s.deadline)
    && (s.deadline == initial || exists id :: id in s.raisers && s.raisers[id] == Finished(s.deadline))
    && initial <= s.deadline
  }

  lemma RaiseKeepsSettled(initial: int, s: Cooldown, a: CooldownStep)
    requires Settled(initial, s) && CanStep(s, a)
    ensures Settled(initial, Raise(s, a)) && s.deadline <= Raise(s, a).deadline
  {
    var t := Raise(s, a);
    if t.deadline != s.deadline {
      assert t.raisers[a.id] == Finished(t.deadline);
    } else if s.deadline != initial {
      var id :| id in s.raisers && s.raisers[id] == Finished(s.deadline);
      assert t.raisers[id] == Finished(t.deadline);
    }
  }

  lemma {:induction false} DeadlineNeverMovesBack(initial: int, s: Cooldown, steps: seq<CooldownStep>)
    requires Settled(initial, s) && CanRaise(s, steps)
    ensures Settled(initial, RaiseAll(s, steps)) && s.deadline <= RaiseAll(s, steps).deadline
    decreases |steps|
  {
    if steps != [] {
      RaiseKeepsSettled(initial, s, steps[0]);
      DeadlineNeverMovesBack(initial, Raise(s, steps[0]), steps[1..]);
    }
  }

  /**
   Under every interleaving the deadline only rises, has reached each finished call's time,
   and once all calls are finished is exactly the latest time asked for, or the one it was.
   */
  lemma DeadlineIsTheLatest(initial: int, steps: seq<CooldownStep>)
    requires CanRaise(Cooldown(initial, map[]), steps)
    ensures var s := RaiseAll(Cooldown(initial, map[]), steps);
            && initial <= s.deadline
            && (forall id :: id in s.raisers && s.raisers[id].Finished? ==> s.raisers[id].until <= s.deadline)
            && (s.deadline == initial || exists id :: id in s.raisers && s.raisers[id] == Finished(s.deadline))
  {
    DeadlineNeverMovesBack(initial, Cooldown(initial, map[]), steps);
  }

  /** A swap that fails lost to somebody who raised the deadline: the loop is lock-free. */
  lemma FailedSwapMeansProgress(initial: int, steps: seq<CooldownStep>, id: nat)
    requires CanRaise(Cooldown(initial, map[]), steps)
    requires CanStep(RaiseAll(Cooldown(initial, map[]), steps), Swap(id))
    ensures var s := RaiseAll(Cooldown(initial, map[]), steps);
            Raise(s, Swap(id)).raisers[id].Reading? <==> s.raisers[id].seen < s.deadline
  {
    DeadlineNeverMovesBack(initial, Cooldown(initial, map[]), steps);
  }

  /** The deadline field with its two atomic operations. */
  class CooldownClock {
    var untilTicks: int

    constructor ()
      ensures untilTicks == 0
    {
      untilTicks := 0;
    }

    method CompareExchange(value: int, comparand: int) returns (original: int)
      modifies this
      ensures original == old(untilTicks)
      ensures untilTicks == if old(untilTicks) == comparand then value else old(untilTicks)
    {
      original := untilTicks;
      if untilTicks == comparand {
        untilTicks := value;
      }
    }

    /** One call's read, when it is its turn. */
    method ReadDeadline(id: nat, until: int, ghost s: Cooldown) returns (next: Raiser)
      requires s.deadline == untilTicks && id in s.raisers && s.raisers[id] == Reading(until)
      ensures Raise(s, Read(id)) == Cooldown(untilTicks, s.raisers[id := next])
    {
      var current := untilTicks;
      next := if current >= until then Finished(until) else Swapping(until, current);
    }

    /** One call's swap, when it is its turn. */
    method SwapDeadline(id: nat, until: int, seen: int, ghost s: Cooldown) returns (next: Raiser)
      requires s.deadline == untilTicks && id in s.raisers && s.raisers[id] == Swapping(until, seen)
      modifies this
      ensures Raise(s, Swap(id)) == Cooldown(untilTicks, s.raisers[id := next])
    {
      var original := CompareExchange(until, seen);
      next := if original == seen then Finished(until) else Reading(until);
    }
  }
}
