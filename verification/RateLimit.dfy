/** The per-client minimum interval between certificate request submissions. */
module RateLimit {

  type Stamps = map<string, int>

  datatype Reply = Reply(wait: int, ok: bool)

  /** How long the client must still wait; nothing when it is unknown. */
  function WaitFor(last: Stamps, interval: int, key: string, now: int): int {
    if key in last then interval - (now - last[key]) else 0
  }

  predicate Lets(last: Stamps, interval: int, key: string, now: int) {
    interval <= 0 || WaitFor(last, interval, key, now) <= 0
  }

  function StampsAfter(last: Stamps, interval: int, key: string, now: int): Stamps {
    if interval > 0 && Lets(last, interval, key, now) then last[key := now] else last
  }

  class Limiter {
    const interval: int
    var lastSubmit: Stamps

    constructor (interval: int)
      ensures this.interval == interval && lastSubmit == map[]
    {
      this.interval := interval;
      lastSubmit := map[];
    }

    method AllowCsrSubmit(key: string, now: int) returns (r: Reply)
      modifies this
      ensures r.ok <==> Lets(old(lastSubmit), interval, key, now)
      ensures r.ok <==> interval <= 0 || key !in old(lastSubmit) || old(lastSubmit)[key] + interval <= now
      ensures !r.ok ==> now + r.wait == old(lastSubmit)[key] + interval
      ensures lastSubmit == if r.ok && interval > 0 then old(lastSubmit)[key := now] else old(lastSubmit)
      ensures r.wait == if r.ok then 0 else WaitFor(old(lastSubmit), interval, key, now)
      ensures lastSubmit == StampsAfter(old(lastSubmit), interval, key, now)
      ensures !r.ok ==> r.wait > 0 && lastSubmit == old(lastSubmit)
    {
      if interval <= 0 {
        return Reply(0, true);
      }
      if key in lastSubmit {
        var wait := interval - (now - lastSubmit[key]);
        if wait > 0 {
          return Reply(wait, false);
        }
      }
      lastSubmit := lastSubmit[key := now];
      return Reply(0, true);
    }
  }

  // ---- Runs of calls; the clock may read anything ----

  datatype Call = Call(key: string, now: int)

  function RunCalls(last: Stamps, interval: int, calls: seq<Call>): Stamps {
    if calls == [] then last
    else
      var c := calls[|calls| - 1];
      StampsAfter(RunCalls(last, interval, calls[..|calls| - 1]), interval, c.key, c.now)
  }

  /** The instants at which calls of `key` are accepted along a run. */
  function AcceptedAt(last: Stamps, interval: int, calls: seq<Call>, key: string): seq<int> {
    if calls == [] then []
    else
      var rest, c := calls[..|calls| - 1], calls[|calls| - 1];
      AcceptedAt(last, interval, rest, key) +
      if c.key == key && Lets(RunCalls(last, interval, rest), interval, key, c.now) then [c.now] else []
  }

  /** The table holds the last accepted instant of a key. */
  lemma {:induction false} StampIsLastAccepted(last: Stamps, interval: int, calls: seq<Call>, key: string)
    requires interval > 0
    ensures
      var times, end := AcceptedAt(last, interval, calls, key), RunCalls(last, interval, calls);
      if times == [] then (key in end <==> key in last) && (key in last ==> end[key] == last[key])
      else key in end && end[key] == times[|times| - 1]
  {
    if calls != [] {
      StampIsLastAccepted(last, interval, calls[..|calls| - 1], key);
    }
  }

  predicate Spaced(times: seq<int>, interval: int) {
    forall i | 0 <= i < |times| - 1 :: times[i + 1] - times[i] >= interval
  }

  lemma {:induction false} AcceptedAreSpaced(last: Stamps, interval: int, calls: seq<Call>, key: string)
    requires interval > 0
    ensures Spaced(AcceptedAt(last, interval, calls, key), interval)
  {
    if calls != [] {
      var rest := calls[..|calls| - 1];
      AcceptedAreSpaced(last, interval, rest, key);
      StampIsLastAccepted(last, interval, rest, key);
    }
  }

  lemma {:induction false} SpacedSpan(times: seq<int>, interval: int, i: nat, n: nat)
    requires Spaced(times, interval) && i + n < |times|
    ensures times[i + n] - times[i] >= n * interval
  {
    if n > 0 {
      SpacedSpan(times, interval, i, n - 1);
      assert times[i + n - 1 + 1] - times[i + n - 1] >= interval;
      assert n * interval == (n - 1) * interval + interval;
    }
  }

  /** In any run, under any clock and from any table, any n consecutive acceptances of one
      client span at least n - 1 intervals. */
  lemma AcceptancesSpan(last: Stamps, interval: int, calls: seq<Call>, key: string, i: nat, n: nat)
    requires interval > 0 && n >= 1 && i + n <= |AcceptedAt(last, interval, calls, key)|
    ensures
      var times := AcceptedAt(last, interval, calls, key);
      times[i + n - 1] - times[i] >= (n - 1) * interval
  {
    AcceptedAreSpaced(last, interval, calls, key);
    SpacedSpan(AcceptedAt(last, interval, calls, key), interval, i, n - 1);
  }

  function CallsOf(calls: seq<Call>, key: string): seq<Call> {
    if calls == [] then []
    else CallsOf(calls[..|calls| - 1], key) + if calls[|calls| - 1].key == key then [calls[|calls| - 1]] else []
  }

  /** Other clients do not interfere: a client's acceptances are those of its own calls alone. */
  lemma {:induction false} OthersDoNotInterfere(last: Stamps, interval: int, calls: seq<Call>, key: string)
    ensures AcceptedAt(last, interval, calls, key) == AcceptedAt(last, interval, CallsOf(calls, key), key)
    ensures
      var a, b := RunCalls(last, interval, calls), RunCalls(last, interval, CallsOf(calls, key));
      (key in a <==> key in b) && (key in a ==> a[key] == b[key])
  {
    if calls != [] {
      var rest, c := calls[..|calls| - 1], calls[|calls| - 1];
      OthersDoNotInterfere(last, interval, rest, key);
      if c.key == key {
        var mine := CallsOf(rest, key) + [c];
        assert mine[..|mine| - 1] == CallsOf(rest, key);
      } else {
        assert CallsOf(rest, key) + [] == CallsOf(rest, key);
      }
    }
  }

  /** After a rejection that named a wait, and any calls among which none of this client is
      accepted, the client is accepted exactly from the end of that wait on. */
  lemma {:induction false} RetryExact(last: Stamps, interval: int, key: string, now: int, calls: seq<Call>, at: int)
    requires !Lets(last, interval, key, now)
    requires AcceptedAt(last, interval, calls, key) == []
    ensures Lets(RunCalls(last, interval, calls), interval, key, at) <==> at >= now + WaitFor(last, interval, key, now)
  {
    StampIsLastAccepted(last, interval, calls, key);
  }

  /** Without a positive interval every call is accepted and nothing is recorded. */
  lemma {:induction false} NoInterval(last: Stamps, interval: int, calls: seq<Call>)
    requires interval <= 0
    ensures RunCalls(last, interval, calls) == last
    ensures forall key :: |AcceptedAt(last, interval, calls, key)| == |CallsOf(calls, key)|
  {
    if calls != [] {
      NoInterval(last, interval, calls[..|calls| - 1]);
    }
  }
}
