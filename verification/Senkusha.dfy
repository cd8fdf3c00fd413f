/** The search for the largest packet size that gets through, in both directions. */
module Senkusha {
  import Arith
  import opened Bytes

  const MTU_UDP_PACKET_ADD: nat := 0x1c
  const MTU_AV_PACKET_ADD: nat := 0x12
  const MTU_PING_DATA_ADD: nat := MTU_UDP_PACKET_ADD + MTU_AV_PACKET_ADD

  /** What became of one attempt. */
  datatype Answer = Response | Timeout | SendError | Stopped

  /** The network: the answer to the attempt with this number at this size. */
  type Network = (nat, nat) -> Answer

  datatype Direction = Inbound | Outbound

  datatype ErrorCode = Success | InvalidData | Canceled | NetworkError | TimedOut

  /** A round at one size: how it went, and how many attempts were made so far. */
  datatype Round = Through(attempts: nat) | Blocked(attempts: nat) | Aborted(error: ErrorCode)

  /** The attempt loop: up to left attempts, the first response is enough. A failed
      send ends the inbound test; outbound it counts as no response. */
  function Attempts(dir: Direction, net: Network, attempts: nat, size: nat, left: nat): (r: Round)
    decreases left
  {
    if left == 0 then Blocked(attempts) else
      match net(attempts, size)
      case Response => Through(attempts + 1)
      case Timeout => Attempts(dir, net, attempts + 1, size, left - 1)
      case Stopped => Aborted(Canceled)
      case SendError => if dir == Inbound then Aborted(NetworkError) else Attempts(dir, net, attempts + 1, size, left - 1)
  }

  /** The search: the size found, the next one that was not, and the sizes tried. */
  datatype Result = Found(mtu: nat, max: nat, tried: seq<nat>) | Failed(error: ErrorCode)

  function Search(dir: Direction, net: Network, attempts: nat, min: nat, max: nat, cur: nat, retries: nat): (r: Result)
    requires min <= cur <= max
    decreases max - min, if cur == min || cur == max then 1 else 0
  {
    if max - min <= 1 then Found(min, max, []) else
      match Attempts(dir, net, attempts, cur, retries)
      case Aborted(error) => Failed(error)
      case Through(n) => Tried([cur], Search(dir, net, n, cur, max, Middle(cur, max), retries))
      case Blocked(n) => Tried([cur], Search(dir, net, n, min, cur, Middle(min, cur), retries))
  }

  /** A search that has tried these sizes before. */
  function Tried(before: seq<nat>, r: Result): Result {
    match r case Found(mtu, max, tried) => Found(mtu, max, before + tried) case Failed(_) => r
  }

  function Middle(min: nat, max: nat): (m: nat)
    requires min <= max
    ensures min <= m <= max
    ensures max - min > 1 ==> min < m < max
  {
    min + (max - min) / 2
  }

  // ---------------------------------------------------------------- one round

  predicate Lost(dir: Direction, answer: Answer) {
    answer == Timeout || (dir == Outbound && answer == SendError)
  }

  /** Stopping cancels the test; only the inbound one gives up at a failed send. */
  predicate Aborts(dir: Direction, answer: Answer, error: ErrorCode) {
    (answer == Stopped && error == Canceled) || (dir == Inbound && answer == SendError && error == NetworkError)
  }

  /** Some attempt of the round is answered, after nothing but losses. */
  predicate Passes(dir: Direction, net: Network, from: nat, size: nat, retries: nat) {
    exists k :: from <= k < from + retries && net(k, size) == Response && LostUntil(dir, net, from, k, size)
  }

  predicate LostUntil(dir: Direction, net: Network, from: nat, to: nat, size: nat) {
    forall j :: from <= j < to ==> Lost(dir, net(j, size))
  }

  /** No attempt of the round is answered. */
  predicate Refused(dir: Direction, net: Network, from: nat, size: nat, retries: nat) {
    LostUntil(dir, net, from, from + retries, size)
  }

  lemma {:induction false} AttemptsMean(dir: Direction, net: Network, from: nat, size: nat, retries: nat)
    ensures Attempts(dir, net, from, size, retries).Through? <==> Passes(dir, net, from, size, retries)
    ensures Attempts(dir, net, from, size, retries).Blocked? <==> Refused(dir, net, from, size, retries)
    decreases retries
  {
    if retries > 0 {
      AttemptsMean(dir, net, from + 1, size, retries - 1);
      if Lost(dir, net(from, size)) {
        if Passes(dir, net, from + 1, size, retries - 1) {
          var k :| from + 1 <= k < from + retries && net(k, size) == Response && LostUntil(dir, net, from + 1, k, size);
          assert LostUntil(dir, net, from, k, size);
        }
        if Passes(dir, net, from, size, retries) {
          var k :| from <= k < from + retries && net(k, size) == Response && LostUntil(dir, net, from, k, size);
          assert k != from && LostUntil(dir, net, from + 1, k, size);
        }
      } else {
        assert net(from, size) == Response ==> LostUntil(dir, net, from, from, size);
      }
    }
  }

  /** A round ends at the first attempt that is not lost, or after all of them. */
  lemma {:induction false} AttemptsEnd(dir: Direction, net: Network, from: nat, size: nat, retries: nat)
    ensures match Attempts(dir, net, from, size, retries)
            case Through(n) => from < n <= from + retries && net(n - 1, size) == Response && LostUntil(dir, net, from, n - 1, size)
            case Blocked(n) => n == from + retries
            case Aborted(error) =>
              exists k :: from <= k < from + retries && Aborts(dir, net(k, size), error) && LostUntil(dir, net, from, k, size)
    decreases retries
  {
    if retries > 0 {
      AttemptsEnd(dir, net, from + 1, size, retries - 1);
      var r := Attempts(dir, net, from, size, retries);
      if Lost(dir, net(from, size)) && r.Aborted? {
        var k :| from + 1 <= k < from + retries && Aborts(dir, net(k, size), r.error) && LostUntil(dir, net, from + 1, k, size);
        assert LostUntil(dir, net, from, k, size);
      } else if !Lost(dir, net(from, size)) {
        assert LostUntil(dir, net, from, from, size);
        assert r.Aborted? ==> Aborts(dir, net(from, size), r.error);
      }
    }
  }

  // ---------------------------------------------------------------- the search

  /** Without any assumption on the network: what was found was answered or is the
      lower bound, and the next size was refused in a whole round or is the upper
      bound; and the upper bound itself is found only by starting there. */
  lemma {:induction false} SearchSound(dir: Direction, net: Network, attempts: nat, min: nat, max: nat, cur: nat,
      retries: nat)
    requires min <= cur <= max
    ensures match Search(dir, net, attempts, min, max, cur, retries)
            case Failed(_) => true
            case Found(mtu, top, tried) =>
              && min <= mtu <= top <= max && top - mtu <= 1 && (cur < max ==> mtu < max)
              && (mtu == min || (mtu in tried && exists a: nat :: Passes(dir, net, a, mtu, retries)))
              && (top == max || (top in tried && exists a: nat :: Refused(dir, net, a, top, retries)))
              && (max - min > 1 ==> tried != [] && tried[0] == cur)
              && forall i :: 0 <= i < |tried| ==> i == 0 || min < tried[i] < max
    decreases max - min, if cur == min || cur == max then 1 else 0
  {
    hide Attempts, Passes, Refused;
    if max - min > 1 {
      AttemptsMean(dir, net, attempts, cur, retries);
      match Attempts(dir, net, attempts, cur, retries)
      case Aborted(_) =>
      case Through(n) => SearchSound(dir, net, n, cur, max, Middle(cur, max), retries);
      case Blocked(n) => SearchSound(dir, net, n, min, cur, Middle(min, cur), retries);
    }
  }

  /** The path lets through packets up to a limit, in spite of some losses. */
  ghost predicate Monotone(dir: Direction, net: Network, limit: nat, retries: nat) {
    forall a: nat, size: nat ::
      if size <= limit then Passes(dir, net, a, size, retries) else Refused(dir, net, a, size, retries)
  }

  /** The search finds the limit, cut to the bounds; sizes it never tries are the
      lower bound when nothing works, an interval too small to search, and the
      upper bound unless that is where it starts. */
  function Limit(limit: nat, min: nat, max: nat, cur: nat): nat
    requires min <= cur <= max
  {
    if max - min <= 1 || limit < min then min
    else if limit < max then limit
    else if cur == max then max
    else max - 1
  }

  lemma {:induction false} SearchFindsLimit(dir: Direction, net: Network, attempts: nat, min: nat, max: nat, cur: nat,
      retries: nat, limit: nat)
    requires min <= cur <= max && Monotone(dir, net, limit, retries)
    ensures var r := Search(dir, net, attempts, min, max, cur, retries);
            r.Found? && r.mtu == Limit(limit, min, max, cur)
    decreases max - min, if cur == min || cur == max then 1 else 0
  {
    if max - min > 1 {
      AttemptsMean(dir, net, attempts, cur, retries);
      hide Monotone, Attempts, Passes, Refused;
      RoundDecides(dir, net, limit, retries, attempts, cur);
      match Attempts(dir, net, attempts, cur, retries)
      case Through(n) => SearchFindsLimit(dir, net, n, cur, max, Middle(cur, max), retries, limit);
      case Blocked(n) => SearchFindsLimit(dir, net, n, min, cur, Middle(min, cur), retries, limit);
    }
  }

  lemma {:induction false} RoundDecides(dir: Direction, net: Network, limit: nat, retries: nat, attempts: nat,
      size: nat)
    requires Monotone(dir, net, limit, retries)
    ensures var r := Attempts(dir, net, attempts, size, retries); if size <= limit then r.Through? else r.Blocked?
  {
    AttemptsMean(dir, net, attempts, size, retries);
    assert if size <= limit then Passes(dir, net, attempts, size, retries) else Refused(dir, net, attempts, size, retries);
  }

  // ---------------------------------------------------------------- its length

  /** Rounded up. */
  function Log2(n: nat): nat {
    if n <= 1 then 0 else 1 + Log2((n + 1) / 2)
  }

  lemma {:induction false} Log2Means(n: nat)
    requires n >= 1
    ensures Arith.Pow2(Log2(n)) >= n && (n > 1 ==> Arith.Pow2(Log2(n) - 1) < n)
  {
    if n > 1 {
      Log2Means((n + 1) / 2);
    }
  }

  lemma {:induction false} Log2Monotone(m: nat, n: nat)
    requires m <= n
    ensures Log2(m) <= Log2(n)
    decreases n
  {
    if n > 1 {
      Log2Monotone((m + 1) / 2, (n + 1) / 2);
    }
  }

  /** A part takes no longer than the whole, and a half one round less. */
  lemma PartIsShort(min: nat, max: nat, part: nat)
    requires max - min > 1 && part <= max - min
    ensures Log2(part) <= Log2(max - min)
    ensures part == max - Middle(min, max) || part == Middle(min, max) - min ==> 1 + Log2(part) <= Log2(max - min)
  {
    Log2Monotone(part, max - min);
    if part <= (max - min + 1) / 2 {
      Log2Monotone(part, (max - min + 1) / 2);
    }
  }

  /** The first round may not narrow the interval; every other one halves it. */
  lemma {:induction false} SearchIsShort(dir: Direction, net: Network, attempts: nat, min: nat, max: nat, cur: nat,
      retries: nat)
    requires min <= cur <= max
    ensures var r := Search(dir, net, attempts, min, max, cur, retries);
            r.Found? ==> |r.tried| <= 1 + Log2(max - min) && (cur == Middle(min, max) ==> |r.tried| <= Log2(max - min))
    decreases max - min, if cur == min || cur == max then 1 else 0
  {
    hide Attempts, Log2, Middle;
    if max - min > 1 {
      match Attempts(dir, net, attempts, cur, retries)
      case Aborted(_) =>
      case Through(n) =>
        SearchIsShort(dir, net, n, cur, max, Middle(cur, max), retries);
        PartIsShort(min, max, max - cur);
      case Blocked(n) =>
        SearchIsShort(dir, net, n, min, cur, Middle(min, cur), retries);
        PartIsShort(min, max, cur - min);
    }
  }

  /** The networks answer these attempts alike. */
  ghost predicate Alike(net: Network, other: Network, from: nat, to: nat) {
    forall a: nat, size: nat :: from <= a < to ==> net(a, size) == other(a, size)
  }

  lemma {:induction false} AttemptsNeed(dir: Direction, net: Network, other: Network, from: nat, size: nat, left: nat)
    requires Alike(net, other, from, from + left)
    ensures Attempts(dir, net, from, size, left) == Attempts(dir, other, from, size, left)
    decreases left
  {
    if left > 0 {
      assert net(from, size) == other(from, size);
      AttemptsNeed(dir, net, other, from + 1, size, left - 1);
    }
  }

  /** The rounds a search may take. */
  function Budget(min: nat, max: nat, cur: nat): nat
    requires min <= max
  {
    Log2(max - min) + (if cur == Middle(min, max) then 0 else 1)
  }

  /** The attempts of this many rounds. */
  function InRounds(retries: nat, rounds: nat): nat
    decreases rounds
  {
    if rounds == 0 then 0 else retries + InRounds(retries, rounds - 1)
  }

  lemma {:induction false} MoreRounds(retries: nat, few: nat, many: nat)
    requires few <= many
    ensures InRounds(retries, few) <= InRounds(retries, many)
    decreases many
  {
    if few < many {
      MoreRounds(retries, few, many - 1);
    }
  }

  lemma {:induction false} BudgetLeft(min: nat, max: nat, cur: nat, lo: nat, hi: nat, retries: nat)
    requires min <= cur <= max && max - min > 1 && ((lo == cur && hi == max) || (lo == min && hi == cur))
    ensures InRounds(retries, Budget(lo, hi, Middle(lo, hi))) + retries <= InRounds(retries, Budget(min, max, cur))
  {
    hide Log2, Middle;
    PartIsShort(min, max, hi - lo);
    var left := Budget(lo, hi, Middle(lo, hi));
    assert left + 1 <= Budget(min, max, cur);
    MoreRounds(retries, left + 1, Budget(min, max, cur));
  }

  /** So whatever the network would have answered after that many rounds of attempts
      makes no difference. */
  lemma {:induction false} SearchNeeds(dir: Direction, net: Network, other: Network, attempts: nat, min: nat, max: nat,
      cur: nat, retries: nat)
    requires min <= cur <= max && Alike(net, other, attempts, attempts + InRounds(retries, Budget(min, max, cur)))
    ensures Search(dir, net, attempts, min, max, cur, retries) == Search(dir, other, attempts, min, max, cur, retries)
    decreases max - min, if cur == min || cur == max then 1 else 0
  {
    if max - min > 1 {
      hide Budget, Middle, Attempts, Log2, InRounds;
      BudgetLeft(min, max, cur, min, cur, retries);
      BudgetLeft(min, max, cur, cur, max, retries);
      AttemptsEnd(dir, net, attempts, cur, retries);
      AttemptsNeed(dir, net, other, attempts, cur, retries);
      match Attempts(dir, net, attempts, cur, retries)
      case Aborted(_) =>
      case Through(n) => SearchNeeds(dir, net, other, n, cur, max, Middle(cur, max), retries);
      case Blocked(n) => SearchNeeds(dir, net, other, n, min, cur, Middle(min, cur), retries);
    }
  }

  // ---------------------------------------------------------------- the tests

  lemma {:induction false} TriedNext(before: seq<nat>, cur: nat, r: Result)
    ensures Tried([], r) == r && Tried(before, Tried([cur], r)) == Tried(before + [cur], r)
  {
    if r.Found? {
      assert [] + r.tried == r.tried;
      assert before + ([cur] + r.tried) == before + [cur] + r.tried;
    }
  }

  /** What 32 bits keep of a number. */
  function Cut(n: int): (c: nat)
    ensures c < U32
  {
    n % U32
  }

  /** The network as seen by a search whose sizes run on past 2^32. */
  function Wrapped(net: Network): Network {
    (attempt: nat, size: nat) => net(attempt, Cut(size))
  }

  /** The inbound search, in 32-bit arithmetic: an upper bound below the lower
      one is reached by wrapping around. */
  function InboundSearch(net: Network, min: nat, max: nat, retries: nat): Result
    requires min < U32 && max < U32
  {
    var top := if min <= max then max else max + U32;
    Search(Inbound, Wrapped(net), 0, min, top, top, retries)
  }

  lemma {:induction false} AttemptsWrapped(dir: Direction, net: Network, attempts: nat, size: nat, left: nat)
    ensures Attempts(dir, Wrapped(net), attempts, size, left) == Attempts(dir, net, attempts, Cut(size), left)
    decreases left
  {
    if left > 0 {
      AttemptsWrapped(dir, net, attempts + 1, size, left - 1);
    }
  }

  /** With the bounds in order nothing wraps. */
  lemma {:induction false} SearchUnwrapped(dir: Direction, net: Network, attempts: nat, min: nat, max: nat, cur: nat, retries: nat)
    requires min <= cur <= max < U32
    ensures Search(dir, Wrapped(net), attempts, min, max, cur, retries) == Search(dir, net, attempts, min, max, cur, retries)
    decreases max - min, if cur == min || cur == max then 1 else 0
  {
    hide Attempts, Wrapped;
    if max - min > 1 {
      AttemptsWrapped(dir, net, attempts, cur, retries);
      match Attempts(dir, net, attempts, cur, retries)
      case Aborted(_) =>
      case Through(n) => SearchUnwrapped(dir, net, n, cur, max, Middle(cur, max), retries);
      case Blocked(n) => SearchUnwrapped(dir, net, n, min, cur, Middle(min, cur), retries);
    }
  }

  lemma WrapDistance(lo: nat, hi: nat)
    requires lo <= hi < lo + U32
    ensures Cut(Cut(hi) - Cut(lo)) == hi - lo
    ensures Cut(Cut(lo) + (hi - lo) / 2) == Cut(Middle(lo, hi))
  {
    Quotient(lo);
    Quotient(hi);
    Uncut(hi - lo);
    hide Cut;
    Congruent(Middle(lo, hi), Cut(lo) + (hi - lo) / 2, lo / U32);
    Congruent(hi - Cut(lo), Cut(hi) - Cut(lo), hi / U32);
    Congruent(hi - Cut(lo), hi - lo, lo / U32);
  }

  lemma Quotient(n: nat)
    ensures n == U32 * (n / U32) + Cut(n)
  {
  }

  lemma Congruent(a: int, b: int, k: int)
    requires a - b == U32 * k
    ensures Cut(a) == Cut(b)
  {
  }

  lemma Uncut(n: nat)
    requires n < U32
    ensures Cut(n) == n == Cut(n + U32)
  {
  }

  /** One round of senkusha_run_mtu_in_test: each attempt sends a request with the
      next number. */
  method RunRound(net: Network, requestId0: nat, cur: nat, retries: nat)
    returns (error: ErrorCode, success: bool, requestId: nat)
    requires cur < U32
    ensures match Attempts(Inbound, net, requestId0, cur, retries)
            case Through(n) => error == Success && success && requestId == n
            case Blocked(n) => error == Success && !success && requestId == n
            case Aborted(e) => error == e && error != Success
  {
    requestId := requestId0;
    for attempt := 0 to retries
      invariant Attempts(Inbound, net, requestId0, cur, retries) == Attempts(Inbound, net, requestId, cur, retries - attempt)
    {
      requestId := requestId + 1;
      var answer := net(requestId - 1, cur);
      if answer == SendError {
        return NetworkError, false, requestId;
      }
      if answer == Timeout {
        continue;
      }
      if answer == Stopped {
        return Canceled, false, requestId;
      }
      return Success, true, requestId;
    }
    return Success, false, requestId;
  }

  /** senkusha_run_mtu_in_test. */
  method RunMtuInTest(min0: nat, max0: nat, retries: nat, net: Network) returns (error: ErrorCode, mtu: Option<nat>)
    requires min0 < U32 && max0 < U32
    ensures match InboundSearch(net, min0, max0, retries)
            case Found(found, _, _) => error == Success && mtu == Some(Cut(found))
            case Failed(e) => error == e && mtu == None
    ensures min0 <= max0 ==> InboundSearch(net, min0, max0, retries) == Search(Inbound, net, 0, min0, max0, max0, retries)
  {
    hide Attempts, Wrapped, Cut, Middle;
    ghost var all := InboundSearch(net, min0, max0, retries);
    ghost var tried: seq<nat> := [];
    ghost var lo, hi, mid := min0, if min0 <= max0 then max0 else max0 + U32, if min0 <= max0 then max0 else max0 + U32;
    if min0 <= max0 {
      SearchUnwrapped(Inbound, net, 0, min0, max0, max0, retries);
    }
    var min, max, cur, requestId: nat := min0, max0, max0, 0;
    Uncut(min0);
    Uncut(max0);
    WrapDistance(lo, hi);
    TriedNext([], 0, all);
    while Cut(max - min) > 1
      invariant 0 <= lo <= mid <= hi < lo + U32
      invariant min == Cut(lo) && max == Cut(hi) && cur == Cut(mid) && Cut(max - min) == hi - lo
      invariant all == Tried(tried, Search(Inbound, Wrapped(net), requestId, lo, hi, mid, retries))
      decreases hi - lo, if mid == lo || mid == hi then 1 else 0
    {
      AttemptsWrapped(Inbound, net, requestId, mid, retries);
      var success;
      error, success, requestId := RunRound(net, requestId, cur, retries);
      if error != Success {
        return error, None;
      }
      if success {
        min := cur;
        lo := mid;
      } else {
        max := cur;
        hi := mid;
      }
      WrapDistance(lo, hi);
      cur := Cut(min + Cut(max - min) / 2);
      TriedNext(tried, mid, Search(Inbound, Wrapped(net), requestId, lo, hi, Middle(lo, hi), retries));
      tried := tried + [mid];
      mid := Middle(lo, hi);
    }
    return Success, Some(min);
  }

  /** senkusha_run_mtu_out_test; command is the answer to the client command that
      precedes it, lastSent whether the one that follows it could be sent. */
  method RunMtuOutTest(mtuIn: nat, min0: nat, max0: nat, retries: nat, net: Network, command: Answer, lastSent: bool)
    returns (error: ErrorCode, mtu: Option<nat>)
    ensures if min0 < 54 || !(min0 <= mtuIn <= max0) then error == InvalidData && mtu == None
            else if command != Response then
              mtu == None && error == (if command == Timeout then TimedOut else if command == SendError then NetworkError else Canceled)
            else match Search(Outbound, net, 0, min0, max0, mtuIn, retries)
              case Found(found, _, _) => mtu == Some(found) && error == if lastSent then Success else NetworkError
              case Failed(e) => error == e && mtu == None
  {
    if min0 < 8 + MTU_PING_DATA_ADD || max0 < min0 || mtuIn < min0 || mtuIn > max0 {
      return InvalidData, None;
    }
    match command {
      case Timeout => return TimedOut, None;
      case SendError => return NetworkError, None;
      case Stopped => return Canceled, None;
      case Response =>
    }
    var packetBufSize := max0 - MTU_UDP_PACKET_ADD;
    ghost var all := Search(Outbound, net, 0, min0, max0, mtuIn, retries);
    ghost var tried: seq<nat> := [];
    var min, max, cur, pings := min0, max0, mtuIn, 0;
    TriedNext([], 0, all);
    while max - min > 1
      invariant min0 <= min <= cur <= max <= max0
      invariant all == Tried(tried, Search(Outbound, net, pings, min, max, cur, retries))
      decreases max - min, if cur == min || cur == max then 1 else 0
    {
      ghost var round := Attempts(Outbound, net, pings, cur, retries);
      var success := false;
      for attempt := 0 to retries
        invariant round == Attempts(Outbound, net, pings, cur, retries - attempt) && !success
      {
        // the ping fits the packet buffer and holds its own header and tag
        assert MTU_AV_PACKET_ADD + 8 <= cur - MTU_UDP_PACKET_ADD <= packetBufSize;
        pings := pings + 1;
        var answer := net(pings - 1, cur);
        if answer == SendError || answer == Timeout {
          continue;
        }
        if answer == Stopped {
          return Canceled, None;
        }
        success := true;
        break;
      }
      if success {
        min := cur;
      } else {
        max := cur;
      }
      TriedNext(tried, cur, Search(Outbound, net, pings, min, max, Middle(min, max), retries));
      tried := tried + [cur];
      cur := min + (max - min) / 2;
    }
    return if lastSent then Success else NetworkError, Some(min);
  }
}
