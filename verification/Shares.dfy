/** Certificate shares: the access handler, and the view limit when handlers overlap. */
module Shares {
  import opened Text
  import opened Tables

  datatype Share = Share(
    kind: string, mode: string, maxViews: Option<int>, viewCount: nat,
    expiresAt: Option<int>, revokedAt: Option<int>)

  /** One access request; the flags are the answers of calls the handler makes: decoding,
      password checks, loading and decrypting. */
  datatype Access = Access(
    decodes: bool, passwordOk: bool, certFound: bool, keyStored: bool,
    keyPassword: string, keyPasswordOk: bool, decrypts: bool, countable: bool)

  datatype Outcome =
    | Denied(reason: Denial)
    | Body(withKey: bool)

  datatype Denial =
    | ShareRevoked | ShareExpired | LimitReached | BadBody | WrongPassword | CertMissing | UnknownKind
    | KeyNotStored | KeyPasswordMissing | WrongKeyPassword | CannotDecrypt | CountFailed

  predicate IsRevoked(sh: Share) {
    sh.revokedAt.Some?
  }

  predicate IsExpired(sh: Share, now: int) {
    sh.expiresAt.Some? && now > sh.expiresAt.value
  }

  predicate MaxViewsReached(sh: Share) {
    sh.maxViews.Some? && sh.viewCount >= sh.maxViews.value
  }

  /** The checks made on the row that `handleShare` loads. */
  predicate Open(sh: Share, now: int) {
    !IsRevoked(sh) && !IsExpired(sh, now) && !MaxViewsReached(sh)
  }

  predicate WantsKey(sh: Share) {
    sh.kind == "private" && sh.mode == "cert_key"
  }

  /** All that has to hold, besides an open share, for a body to be sent. */
  predicate Serves(sh: Share, a: Access) {
    && a.decodes && a.passwordOk && sh.kind in {"public", "private"} && a.certFound && a.countable
    && (WantsKey(sh) ==> a.keyStored && !IsBlank(a.keyPassword) && a.keyPasswordOk && a.decrypts)
  }

  /** When a refusal applies. */
  predicate Applies(d: Denial, sh: Share, a: Access, now: int) {
    match d
    case ShareRevoked => IsRevoked(sh)
    case ShareExpired => IsExpired(sh, now)
    case LimitReached => MaxViewsReached(sh)
    case BadBody => !a.decodes
    case WrongPassword => !a.passwordOk
    case UnknownKind => sh.kind !in {"public", "private"}
    case CertMissing => !a.certFound
    case KeyNotStored => WantsKey(sh) && !a.keyStored
    case KeyPasswordMissing => WantsKey(sh) && IsBlank(a.keyPassword)
    case WrongKeyPassword => WantsKey(sh) && !a.keyPasswordOk
    case CannotDecrypt => WantsKey(sh) && !a.decrypts
    case CountFailed => !a.countable
  }

  /** The order in which the handler looks for them. */
  function Turn(d: Denial): nat {
    match d
    case ShareRevoked => 0
    case ShareExpired => 1
    case LimitReached => 2
    case BadBody => 3
    case WrongPassword => 4
    case UnknownKind => 5
    case CertMissing => 6
    case KeyNotStored => 7
    case KeyPasswordMissing => 8
    case WrongKeyPassword => 9
    case CannotDecrypt => 10
    case CountFailed => 11
  }

  /** The answer of an access, read off the row and the request: the first of these
      that holds is the refusal. */
  function Answer(sh: Share, a: Access, now: int): Outcome {
    var private, withKey := sh.kind == "private", sh.kind == "private" && sh.mode == "cert_key";
    if sh.revokedAt != None then Denied(ShareRevoked)
    else if sh.expiresAt != None && sh.expiresAt.value < now then Denied(ShareExpired)
    else if sh.maxViews != None && sh.maxViews.value <= sh.viewCount then Denied(LimitReached)
    else if !a.decodes then Denied(BadBody)
    else if !a.passwordOk then Denied(WrongPassword)
    else if sh.kind != "public" && !private then Denied(UnknownKind)
    else if !a.certFound then Denied(CertMissing)
    else if withKey && !a.keyStored then Denied(KeyNotStored)
    else if withKey && Trim(a.keyPassword) == "" then Denied(KeyPasswordMissing)
    else if withKey && !a.keyPasswordOk then Denied(WrongKeyPassword)
    else if withKey && !a.decrypts then Denied(CannotDecrypt)
    else if !a.countable then Denied(CountFailed)
    else Body(withKey)
  }

  /** The refusal that comes first in turn is the one of the answer, and an access that none
      applies to is answered with a body. */
  lemma AnswerExact(sh: Share, a: Access, now: int)
    ensures Open(sh, now) && Serves(sh, a) <==> Answer(sh, a, now).Body?
    ensures forall d | Applies(d, sh, a, now) && (forall e | Turn(e) < Turn(d) :: !Applies(e, sh, a, now)) ::
              Answer(sh, a, now) == Denied(d)
  {
    BlankTrims(a.keyPassword);
    var o := Answer(sh, a, now);
    if o.Denied? {
      assert Applies(o.reason, sh, a, now);
      forall d | Applies(d, sh, a, now) && (forall e | Turn(e) < Turn(d) :: !Applies(e, sh, a, now))
        ensures d == o.reason
      {
        AppliesFrom(d, sh, a, now);
        TurnsDiffer(d, o.reason);
      }
    }
  }

  /** No refusal before that of the answer applies. */
  lemma AppliesFrom(d: Denial, sh: Share, a: Access, now: int)
    requires Applies(d, sh, a, now)
    ensures Answer(sh, a, now).Denied? && Turn(Answer(sh, a, now).reason) <= Turn(d)
  {
    BlankTrims(a.keyPassword);
  }

  lemma TurnsDiffer(d: Denial, e: Denial)
    requires Turn(d) == Turn(e)
    ensures d == e
  {
  }

  class ShareRow {
    var share: Share

    constructor (share: Share)
      ensures this.share == share
    {
      this.share := share;
    }

    method IncrementShareView(countable: bool) returns (ok: bool)
      modifies this
      ensures ok == countable
      ensures share == if ok then old(share).(viewCount := old(share).viewCount + 1) else old(share)
    {
      if countable {
        share := share.(viewCount := share.viewCount + 1);
      }
      return countable;
    }

    /** The access path without another handler in between: a body is sent exactly when
        every check passes, with the key exactly when the share offers one; a refusal is the
        first that applies; and the view counter moves by one exactly when a body is sent. */
    method HandleShareAccess(a: Access, now: int) returns (o: Outcome)
      modifies this
      ensures o.Body? <==> Open(old(share), now) && Serves(old(share), a)
      ensures o.Denied? ==> Applies(o.reason, old(share), a, now)
                            && forall d | Turn(d) < Turn(o.reason) :: !Applies(d, old(share), a, now)
      ensures o.Body? ==> (o.withKey <==> WantsKey(old(share)))
      ensures o == Answer(old(share), a, now)
      ensures share == if o.Body? then old(share).(viewCount := old(share).viewCount + 1) else old(share)
    {
      var loaded := share;
      BlankTrims(a.keyPassword);
      if IsRevoked(loaded) {
        return Denied(ShareRevoked);
      }
      if IsExpired(loaded, now) {
        return Denied(ShareExpired);
      }
      if MaxViewsReached(loaded) {
        return Denied(LimitReached);
      }
      if !a.decodes {
        return Denied(BadBody);
      }
      if !a.passwordOk {
        return Denied(WrongPassword);
      }
      var withKey := false;
      if loaded.kind == "public" {
        if !a.certFound {
          return Denied(CertMissing);
        }
      } else if loaded.kind == "private" {
        if !a.certFound {
          return Denied(CertMissing);
        }
        if loaded.mode == "cert_key" {
          if !a.keyStored {
            return Denied(KeyNotStored);
          }
          if IsBlank(a.keyPassword) {
            return Denied(KeyPasswordMissing);
          }
          if !a.keyPasswordOk {
            return Denied(WrongKeyPassword);
          }
          if !a.decrypts {
            return Denied(CannotDecrypt);
          }
          withKey := true;
        }
      } else {
        return Denied(UnknownKind);
      }
      var ok := IncrementShareView(a.countable);
      if !ok {
        return Denied(CountFailed);
      }
      return Body(withKey);
    }
  }

  // ---- Overlapping handlers ----

  type Handler = nat

  /** The row, the handlers that have loaded it and passed its checks, those that have
      counted their view, and how many bodies have been sent. */
  datatype Traffic = Traffic(share: Share, checked: set<Handler>, counted: set<Handler>, sent: nat)

  datatype TrafficStep =
    | Load(h: Handler, now: int)
    | GiveUp(h: Handler)
    | Count(h: Handler)
    | Send(h: Handler)
    | Revoke(now: int)

  function InFlight(s: Traffic): set<Handler> {
    s.checked + s.counted
  }

  function StepTraffic(s: Traffic, step: TrafficStep): Traffic {
    match step
    case Load(h, now) =>
      if h !in InFlight(s) && Open(s.share, now) then s.(checked := s.checked + {h}) else s
    case GiveUp(h) => s.(checked := s.checked - {h})
    case Count(h) =>
      if h in s.checked then
        s.(share := s.share.(viewCount := s.share.viewCount + 1),
           checked := s.checked - {h}, counted := s.counted + {h})
      else s
    case Send(h) =>
      if h in s.counted then s.(counted := s.counted - {h}, sent := s.sent + 1) else s
    case Revoke(now) => if IsRevoked(s.share) then s else s.(share := s.share.(revokedAt := Some(now)))
  }

  function RunTraffic(s: Traffic, steps: seq<TrafficStep>): Traffic {
    if steps == [] then s else StepTraffic(RunTraffic(s, steps[..|steps| - 1]), steps[|steps| - 1])
  }

  /** A fresh share with limit `m`, and nobody at it. */
  predicate Idle(s: Traffic) {
    s.share.viewCount == 0 && s.checked == {} && s.counted == {} && s.sent == 0
  }

  /** No more than `k` handlers overlap anywhere along the run. */
  predicate Overlap(s: Traffic, steps: seq<TrafficStep>, k: nat) {
    forall n | 0 <= n <= |steps| :: |InFlight(RunTraffic(s, steps[..n]))| <= k
  }

  lemma OverlapPrefix(s: Traffic, steps: seq<TrafficStep>, k: nat)
    requires steps != [] && Overlap(s, steps, k)
    ensures Overlap(s, steps[..|steps| - 1], k)
    ensures |InFlight(RunTraffic(s, steps))| <= k
  {
    var n := |steps| - 1;
    forall m | 0 <= m <= n ensures |InFlight(RunTraffic(s, steps[..n][..m]))| <= k {
      assert steps[..n][..m] == steps[..m];
    }
    assert steps[..n + 1] == steps;
  }

  ghost predicate Balanced(s: Traffic, k: nat) {
    && s.checked !! s.counted
    && s.share.viewCount == s.sent + |s.counted|
    && (s.share.maxViews.Some? && (s.share.viewCount > 0 || s.checked != {}) ==>
        s.share.maxViews.value >= 1 &&
        s.share.viewCount + |s.checked| <= s.share.maxViews.value + k - 1)
  }

  lemma StepBalanced(s: Traffic, step: TrafficStep, k: nat)
    requires Balanced(s, k) && |InFlight(StepTraffic(s, step))| <= k
    ensures Balanced(StepTraffic(s, step), k)
  {
    var t := StepTraffic(s, step);
    match step {
      case Load(h, now) =>
        if t != s {
          CheckedWithin(t);
        }
      case GiveUp(h) =>
      case Count(h) =>
      case Send(h) =>
      case Revoke(now) =>
    }
  }

  lemma CheckedWithin(s: Traffic)
    ensures |s.checked| <= |InFlight(s)|
  {
    SubsetSize(s.checked, InFlight(s));
  }

  lemma {:induction false} SubsetSize(a: set<Handler>, b: set<Handler>)
    requires a <= b
    ensures |a| <= |b|
  {
    if a != {} {
      var x :| x in a;
      SubsetSize(a - {x}, b - {x});
    }
  }

  lemma {:induction false} RunBalanced(s: Traffic, steps: seq<TrafficStep>, k: nat)
    requires Idle(s) && Overlap(s, steps, k)
    ensures Balanced(RunTraffic(s, steps), k)
  {
    if steps != [] {
      OverlapPrefix(s, steps, k);
      RunBalanced(s, steps[..|steps| - 1], k);
      var before, step := RunTraffic(s, steps[..|steps| - 1]), steps[|steps| - 1];
      assert RunTraffic(s, steps) == StepTraffic(before, step);
      StepBalanced(before, step, k);
    }
  }

  lemma {:induction false} LimitIsFixed(s: Traffic, steps: seq<TrafficStep>)
    ensures RunTraffic(s, steps).share.maxViews == s.share.maxViews
  {
    if steps != [] {
      LimitIsFixed(s, steps[..|steps| - 1]);
    }
  }

  /** With at most `k` overlapping handlers the counter of a share limited to `m` views
      never passes `m + k - 1`, and each body sent has its own count. */
  lemma ViewsBounded(s: Traffic, steps: seq<TrafficStep>, k: nat, m: nat)
    requires Idle(s) && Overlap(s, steps, k) && s.share.maxViews == Some(m)
    ensures
      var t := RunTraffic(s, steps);
      && t.sent <= t.share.viewCount
      && t.share.viewCount <= (if m == 0 || k == 0 then 0 else m + k - 1)
      && (k <= 1 ==> t.share.viewCount <= m)
  {
    RunBalanced(s, steps, k);
    LimitIsFixed(s, steps);
    if k == 0 {
      NobodyNoViews(s, steps);
    }
  }

  lemma {:induction false} NobodyNoViews(s: Traffic, steps: seq<TrafficStep>)
    requires Idle(s) && Overlap(s, steps, 0)
    ensures RunTraffic(s, steps).share.viewCount == 0
  {
    if steps != [] {
      OverlapPrefix(s, steps, 0);
      NobodyNoViews(s, steps[..|steps| - 1]);
      var before, n := RunTraffic(s, steps[..|steps| - 1]), |steps| - 1;
      assert |InFlight(RunTraffic(s, steps[..n]))| <= 0;
      assert before.checked <= InFlight(before);
      assert InFlight(before) == {};
    }
  }

  /** Once a share is revoked, only handlers that had already passed the checks can still
      count a view. */
  lemma {:induction false} RevokedOnlyDrains(s: Traffic, steps: seq<TrafficStep>)
    requires IsRevoked(s.share)
    ensures
      var t := RunTraffic(s, steps);
      && IsRevoked(t.share) && t.checked <= s.checked
      && t.share.viewCount + |t.checked| <= s.share.viewCount + |s.checked|
  {
    if steps != [] {
      RevokedOnlyDrains(s, steps[..|steps| - 1]);
      var t := RunTraffic(s, steps[..|steps| - 1]);
      SubsetSize(RunTraffic(s, steps).checked, t.checked);
    }
  }

  /** A handler that loads the row strictly after its end passes no check, so that only those
      already under way can still count a view and send a body. */
  lemma {:induction false} ExpiredOnlyDrains(s: Traffic, steps: seq<TrafficStep>, end: int)
    requires s.share.expiresAt == Some(end) && s.checked !! s.counted
    requires forall i | 0 <= i < |steps| && steps[i].Load? :: end < steps[i].now
    ensures
      var t := RunTraffic(s, steps);
      && t.share.expiresAt == Some(end) && t.checked !! t.counted
      && t.checked <= s.checked && InFlight(t) <= InFlight(s)
      && t.share.viewCount + |t.checked| <= s.share.viewCount + |s.checked|
      && t.sent + |InFlight(t)| <= s.sent + |InFlight(s)|
  {
    if steps != [] {
      var n := |steps| - 1;
      ExpiredOnlyDrains(s, steps[..n], end);
      ExpiredStep(RunTraffic(s, steps[..n]), steps[n], end);
    }
  }

  /** The handler `h` leaves one of two disjoint sets. */
  lemma Leaves(checked: set<Handler>, counted: set<Handler>, h: Handler)
    requires checked !! counted
    ensures h in counted ==> |checked + (counted - {h})| == |checked + counted| - 1
    ensures h in checked ==> |(checked - {h}) + counted| == |checked + counted| - 1
  {
    if h in counted {
      assert checked + (counted - {h}) == (checked + counted) - {h};
    }
    if h in checked {
      assert (checked - {h}) + counted == (checked + counted) - {h};
    }
  }

  lemma ExpiredStep(s: Traffic, step: TrafficStep, end: int)
    requires s.share.expiresAt == Some(end) && (step.Load? ==> end < step.now)
    requires s.checked !! s.counted
    ensures
      var t := StepTraffic(s, step);
      && t.share.expiresAt == Some(end) && t.checked !! t.counted
      && t.checked <= s.checked && InFlight(t) <= InFlight(s)
      && t.share.viewCount + |t.checked| <= s.share.viewCount + |s.checked|
      && t.sent + |InFlight(t)| <= s.sent + |InFlight(s)|
  {
    match step
    case Load(_, _) =>
    case Revoke(_) =>
    case GiveUp(h) =>
      Leaves(s.checked, s.counted, h);
    case Count(h) =>
      assert h in s.checked ==> (s.checked - {h}) + (s.counted + {h}) == s.checked + s.counted;
    case Send(h) =>
      Leaves(s.checked, s.counted, h);
  }

  // ---- The bound is reached ----

  lemma {:induction false} RunConcat(s: Traffic, a: seq<TrafficStep>, b: seq<TrafficStep>)
    ensures RunTraffic(s, a + b) == RunTraffic(RunTraffic(s, a), b)
  {
    if b == [] {
      assert a + b == a;
    } else {
      RunConcat(s, a, b[..|b| - 1]);
      assert (a + b)[..|a + b| - 1] == a + b[..|b| - 1];
    }
  }

  lemma OverlapConcat(s: Traffic, a: seq<TrafficStep>, b: seq<TrafficStep>, k: nat)
    requires Overlap(s, a, k) && Overlap(RunTraffic(s, a), b, k)
    ensures Overlap(s, a + b, k)
  {
    forall n | 0 <= n <= |a + b| ensures |InFlight(RunTraffic(s, (a + b)[..n]))| <= k {
      if n <= |a| {
        assert (a + b)[..n] == a[..n];
      } else {
        assert (a + b)[..n] == a + b[..n - |a|];
        RunConcat(s, a, b[..n - |a|]);
      }
    }
  }

  lemma OneStep(s: Traffic, step: TrafficStep, k: nat)
    requires |InFlight(s)| <= k && |InFlight(StepTraffic(s, step))| <= k
    ensures RunTraffic(s, [step]) == StepTraffic(s, step)
    ensures Overlap(s, [step], k)
  {
    assert [step][..0] == [];
    assert RunTraffic(s, []) == s;
    forall n | 0 <= n <= 1 ensures |InFlight(RunTraffic(s, [step][..n]))| <= k {
      assert n == 1 ==> [step][..n] == [step];
    }
  }

  lemma Append(s: Traffic, before: seq<TrafficStep>, step: TrafficStep, k: nat)
    requires Overlap(s, before, k) && |InFlight(RunTraffic(s, before))| <= k
    requires |InFlight(StepTraffic(RunTraffic(s, before), step))| <= k
    ensures Overlap(s, before + [step], k)
    ensures RunTraffic(s, before + [step]) == StepTraffic(RunTraffic(s, before), step)
  {
    OneStep(RunTraffic(s, before), step, k);
    RunConcat(s, before, [step]);
    OverlapConcat(s, before, [step], k);
  }

  /** One handler after the other: `n` views, nobody left in flight. */
  lemma {:induction false} ServeInTurn(s: Traffic, n: nat, k: nat, now: int) returns (steps: seq<TrafficStep>)
    requires InFlight(s) == {} && k >= 1
    requires !IsRevoked(s.share) && !IsExpired(s.share, now)
    requires s.share.maxViews.Some? && s.share.viewCount + n <= s.share.maxViews.value
    ensures Overlap(s, steps, k)
    ensures RunTraffic(s, steps) ==
            s.(share := s.share.(viewCount := s.share.viewCount + n), sent := s.sent + n)
  {
    if n == 0 {
      steps := [];
      assert steps[..0] == [];
    } else {
      var before := ServeInTurn(s, n - 1, k, now);
      steps := ServeOne(s, before, k, now);
    }
  }

  lemma ServeOne(s: Traffic, before: seq<TrafficStep>, k: nat, now: int) returns (steps: seq<TrafficStep>)
    requires k >= 1 && Overlap(s, before, k)
    requires var t := RunTraffic(s, before); InFlight(t) == {} && Open(t.share, now)
    ensures Overlap(s, steps, k)
    ensures
      var t := RunTraffic(s, before);
      RunTraffic(s, steps) == t.(share := t.share.(viewCount := t.share.viewCount + 1), sent := t.sent + 1)
  {
    var t := RunTraffic(s, before);
    var loaded := t.(checked := {0});
    var viewed := t.(share := t.share.(viewCount := t.share.viewCount + 1), counted := {0});
    assert t.checked == {} && t.counted == {};
    assert StepTraffic(t, Load(0, now)) == loaded && InFlight(loaded) == {0};
    Append(s, before, Load(0, now), k);
    steps := before + [Load(0, now)];
    assert StepTraffic(loaded, Count(0)) == viewed && InFlight(viewed) == {0};
    Append(s, steps, Count(0), k);
    steps := steps + [Count(0)];
    assert InFlight(StepTraffic(viewed, Send(0))) == {};
    Append(s, steps, Send(0), k);
    steps := steps + [Send(0)];
  }

  lemma LoadNew(t: Traffic, h: Handler, now: int)
    requires t.counted == {} && h !in t.checked && Open(t.share, now)
    ensures StepTraffic(t, Load(h, now)) == t.(checked := t.checked + {h})
    ensures |InFlight(t)| == |t.checked| && |InFlight(StepTraffic(t, Load(h, now)))| == |t.checked| + 1
    ensures |t.checked + {h}| == |t.checked| + 1
  {
    assert InFlight(t) == t.checked;
    assert InFlight(StepTraffic(t, Load(h, now))) == t.checked + {h};
  }

  /** `n` handlers pass the checks before any of them counts its view. */
  lemma {:induction false} LoadTogether(s: Traffic, n: nat, k: nat, now: int) returns (steps: seq<TrafficStep>)
    requires InFlight(s) == {} && Open(s.share, now) && n <= k
    ensures Overlap(s, steps, k)
    ensures
      var t := RunTraffic(s, steps);
      t == s.(checked := t.checked) && |t.checked| == n && forall h | h in t.checked :: h < n
  {
    if n == 0 {
      steps := [];
      assert steps[..0] == [] && s.checked == {};
    } else {
      var before := LoadTogether(s, n - 1, k, now);
      var t := RunTraffic(s, before);
      LoadNew(t, n - 1, now);
      Append(s, before, Load(n - 1, now), k);
      steps := before + [Load(n - 1, now)];
    }
  }

  lemma Join(s: Traffic, a: seq<TrafficStep>, b: seq<TrafficStep>, k: nat)
    requires Overlap(s, a, k) && Overlap(RunTraffic(s, a), b, k)
    ensures Overlap(s, a + b, k) && RunTraffic(s, a + b) == RunTraffic(RunTraffic(s, a), b)
  {
    RunConcat(s, a, b);
    OverlapConcat(s, a, b, k);
  }

  /** All waiting handlers count their views, one after the other. */
  lemma {:induction false} CountTogether(s: Traffic, k: nat) returns (steps: seq<TrafficStep>)
    requires |InFlight(s)| <= k
    ensures Overlap(s, steps, k)
    ensures RunTraffic(s, steps).share.viewCount == s.share.viewCount + |s.checked|
    decreases |s.checked|
  {
    if s.checked == {} {
      steps := [];
      assert steps[..0] == [];
    } else {
      var h :| h in s.checked;
      var t := StepTraffic(s, Count(h));
      assert InFlight(t) == InFlight(s) && |t.checked| == |s.checked| - 1;
      OneStep(s, Count(h), k);
      var rest := CountTogether(t, k);
      Join(s, [Count(h)], rest, k);
      steps := [Count(h)] + rest;
    }
  }

  /** The bound cannot be improved: some run with at most `k` overlapping handlers counts
      exactly `m + k - 1` views of a share limited to `m`. */
  lemma BoundIsReached(s: Traffic, k: nat, m: nat, now: int)
    requires Idle(s) && s.share.maxViews == Some(m) && Open(s.share, now) && k >= 1
    ensures exists steps :: Overlap(s, steps, k) && RunTraffic(s, steps).share.viewCount == m + k - 1
  {
    var turns := ServeInTurn(s, m - 1, k, now);
    var t := RunTraffic(s, turns);
    var loads := LoadTogether(t, k, k, now);
    var u := RunTraffic(t, loads);
    assert InFlight(u) == u.checked;
    var counts := CountTogether(u, k);
    var v := RunTraffic(u, counts);
    assert v.share.viewCount == m + k - 1;
    Join(s, turns, loads, k);
    Join(s, turns + loads, counts, k);
    assert RunTraffic(s, turns + loads + counts) == v;
  }
}
