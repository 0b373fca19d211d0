/** The automatic UI reset policy of reset.rs: three triggers, one cooldown, and the wake-up
    deadline computed apart from the poll it has to agree with. */
module Reset {
  import opened Bytes

  datatype Config = Config(
    idleMs: Option<nat>, hiddenMs: Option<nat>, memLimit: Option<nat>,
    memPollMs: nat, safeIdleMs: nat, cooldownMs: nat)

  datatype Trigger = Idle | Hidden | MemWatchdog

  datatype Policy = Policy(
    cfg: Config, lastInput: nat, idleArmed: bool, focused: bool, visible: bool,
    hiddenSince: Option<nat>, hiddenFired: bool, memPending: bool, nextMemSampleAt: nat,
    suppressed: bool, cooldownUntil: Option<nat>)

  // ----- the operations on values -----

  function Begin(cfg: Config, now: nat): Policy {
    Policy(cfg, now, true, true, true, None, false, false, SatAdd(now, cfg.memPollMs), false, None)
  }

  function UserInput(p: Policy, now: nat): Policy {
    p.(lastInput := now, idleArmed := true,
       hiddenSince := if p.hiddenSince.Some? then Some(now) else None,
       hiddenFired := p.hiddenFired && p.hiddenSince.None?)
  }

  function SyncHidden(p: Policy, now: nat): Policy {
    var hidden := !p.visible || !p.focused;
    if hidden && p.hiddenSince.None? then p.(hiddenSince := Some(now), hiddenFired := false)
    else if !hidden && p.hiddenSince.Some? then p.(hiddenSince := None, hiddenFired := false)
    else p
  }

  function Focus(p: Policy, focused: bool, now: nat): Policy { SyncHidden(p.(focused := focused), now) }

  function Visibility(p: Policy, visible: bool, now: nat): Policy { SyncHidden(p.(visible := visible), now) }

  function MemSample(p: Policy, bytes: nat, now: nat): Policy {
    if p.cfg.memLimit.None? then p
    else
      var over := bytes > p.cfg.memLimit.value;
      p.(nextMemSampleAt := SatAdd(now, p.cfg.memPollMs), memPending := over, suppressed := p.suppressed && over)
  }

  predicate InCooldown(p: Policy, now: nat) { p.cooldownUntil.Some? && now < p.cooldownUntil.value }

  function Cooling(p: Policy, now: nat): Policy { p.(cooldownUntil := Some(SatAdd(now, p.cfg.cooldownMs))) }

  /** A policy and what it fired, if anything. */
  datatype Fired = Fired(policy: Policy, trigger: Option<Trigger>)

  function FireMem(p: Policy, now: nat): Fired {
    Fired(Cooling(p.(memPending := false, suppressed := false), now), Some(MemWatchdog))
  }

  function WorkspaceSwitch(p: Policy, now: nat): Fired {
    if !p.memPending then Fired(p, None)
    else if InCooldown(p, now) then Fired(p.(suppressed := true), None)
    else FireMem(p, now)
  }

  predicate MemReady(p: Policy, now: nat) { p.memPending && now >= SatAdd(p.lastInput, p.cfg.safeIdleMs) }

  predicate IdleReady(p: Policy, now: nat) {
    p.cfg.idleMs.Some? && p.idleArmed && now >= SatAdd(p.lastInput, p.cfg.idleMs.value)
  }

  predicate HiddenReady(p: Policy, now: nat) {
    && p.cfg.hiddenMs.Some? && p.hiddenSince.Some? && !p.hiddenFired
    && now >= SatAdd(p.hiddenSince.value, p.cfg.hiddenMs.value)
  }

  function Poll(p: Policy, now: nat): Fired {
    if MemReady(p, now) && !InCooldown(p, now) then FireMem(p, now)
    else
      var q := if MemReady(p, now) then p.(suppressed := true) else p;
      if IdleReady(p, now) && !InCooldown(p, now) then
        Fired(Cooling(q.(idleArmed := false), now), Some(Idle))
      else if HiddenReady(p, now) && !InCooldown(p, now) then
        Fired(Cooling(q.(hiddenFired := true), now), Some(Hidden))
      else Fired(q, None)
  }

  function MinOpt(a: Option<nat>, b: nat): Option<nat> {
    if a.None? || b < a.value then Some(b) else a
  }

  function Clamp(p: Policy, now: nat, t: nat): nat {
    if InCooldown(p, now) then Max(t, p.cooldownUntil.value) else t
  }

  /** The least instant at which something may fire, cooldown included. */
  function FiringDeadline(p: Policy, now: nat): Option<nat> {
    var a := if p.cfg.idleMs.Some? && p.idleArmed
             then Some(Clamp(p, now, SatAdd(p.lastInput, p.cfg.idleMs.value))) else None;
    var b := if p.cfg.hiddenMs.Some? && p.hiddenSince.Some? && !p.hiddenFired
             then MinOpt(a, Clamp(p, now, SatAdd(p.hiddenSince.value, p.cfg.hiddenMs.value))) else a;
    if p.cfg.memLimit.Some? && p.memPending
    then MinOpt(b, Clamp(p, now, SatAdd(p.lastInput, p.cfg.safeIdleMs))) else b
  }

  function NextDeadline(p: Policy, now: nat): Option<nat> {
    if p.cfg.memLimit.Some? then MinOpt(FiringDeadline(p, now), p.nextMemSampleAt)
    else FiringDeadline(p, now)
  }

  // ----- the policy object -----

  class ResetPolicy {
    const cfg: Config
    var lastInput: nat
    var idleArmed: bool
    var focused: bool
    var visible: bool
    var hiddenSince: Option<nat>
    var hiddenFired: bool
    var memPending: bool
    var nextMemSampleAt: nat
    var suppressed: bool
    var cooldownUntil: Option<nat>

    function Model(): Policy reads this {
      Policy(cfg, lastInput, idleArmed, focused, visible, hiddenSince, hiddenFired,
             memPending, nextMemSampleAt, suppressed, cooldownUntil)
    }

    /** The program panics on a zero sample period with the watchdog on. */
    constructor (cfg: Config, now: nat)
      requires cfg.memLimit.None? || cfg.memPollMs > 0
      ensures Model() == Begin(cfg, now)
    {
      this.cfg := cfg;
      lastInput, idleArmed, focused, visible := now, true, true, true;
      hiddenSince, hiddenFired, memPending := None, false, false;
      nextMemSampleAt, suppressed, cooldownUntil := SatAdd(now, cfg.memPollMs), false, None;
    }

    method OnUserInput(now: nat)
      modifies this
      ensures Model() == UserInput(old(Model()), now)
    {
      lastInput := now;
      idleArmed := true;
      if hiddenSince.Some? {
        hiddenSince := Some(now);
        hiddenFired := false;
      }
    }

    method Sync(now: nat)
      modifies this
      ensures Model() == SyncHidden(old(Model()), now)
    {
      var hidden := !visible || !focused;
      match (hidden, hiddenSince)
      case (true, None) => hiddenSince, hiddenFired := Some(now), false;
      case (false, Some(_)) => hiddenSince, hiddenFired := None, false;
      case _ =>
    }

    method OnFocus(isFocused: bool, now: nat)
      modifies this
      ensures Model() == Focus(old(Model()), isFocused, now)
    {
      focused := isFocused;
      Sync(now);
    }

    method OnVisibility(isVisible: bool, now: nat)
      modifies this
      ensures Model() == Visibility(old(Model()), isVisible, now)
    {
      visible := isVisible;
      Sync(now);
    }

    method OnMemSample(bytes: nat, now: nat)
      modifies this
      ensures Model() == MemSample(old(Model()), bytes, now)
    {
      if cfg.memLimit.None? {
        return;
      }
      nextMemSampleAt := SatAdd(now, cfg.memPollMs);
      if bytes > cfg.memLimit.value {
        memPending := true;
      } else {
        memPending := false;
        suppressed := false;
      }
    }

    method FireMemNow(now: nat) returns (trigger: Trigger)
      modifies this
      ensures Fired(Model(), Some(trigger)) == FireMem(old(Model()), now)
    {
      memPending := false;
      suppressed := false;
      StartCooldown(now);
      trigger := MemWatchdog;
    }

    method StartCooldown(now: nat)
      modifies this
      ensures Model() == Cooling(old(Model()), now)
    {
      cooldownUntil := Some(SatAdd(now, cfg.cooldownMs));
    }

    method Resting(now: nat) returns (resting: bool)
      ensures resting <==> InCooldown(Model(), now)
    {
      resting := cooldownUntil.Some? && now < cooldownUntil.value;
    }

    method OnWorkspaceSwitch(now: nat) returns (trigger: Option<Trigger>)
      modifies this
      ensures Fired(Model(), trigger) == WorkspaceSwitch(old(Model()), now)
    {
      if !memPending {
        return None;
      }
      var resting := Resting(now);
      if resting {
        suppressed := true;
        return None;
      }
      var fired := FireMemNow(now);
      trigger := Some(fired);
    }

    method PollNow(now: nat) returns (trigger: Option<Trigger>)
      modifies this
      ensures Fired(Model(), trigger) == Poll(old(Model()), now)
    {
      var resting := Resting(now);
      if memPending && now >= SatAdd(lastInput, cfg.safeIdleMs) {
        if resting {
          suppressed := true;
        } else {
          var fired := FireMemNow(now);
          return Some(fired);
        }
      }
      if cfg.idleMs.Some? && idleArmed && now >= SatAdd(lastInput, cfg.idleMs.value) && !resting {
        idleArmed := false;
        StartCooldown(now);
        return Some(Idle);
      }
      if cfg.hiddenMs.Some? && hiddenSince.Some? && !hiddenFired
         && now >= SatAdd(hiddenSince.value, cfg.hiddenMs.value) && !resting {
        hiddenFired := true;
        StartCooldown(now);
        return Some(Hidden);
      }
      trigger := None;
    }

    method Deadline(now: nat) returns (best: Option<nat>)
      ensures best == NextDeadline(Model(), now)
    {
      best := None;
      if cfg.idleMs.Some? && idleArmed {
        best := MinOpt(best, Clamp(Model(), now, SatAdd(lastInput, cfg.idleMs.value)));
      }
      if cfg.hiddenMs.Some? && hiddenSince.Some? && !hiddenFired {
        best := MinOpt(best, Clamp(Model(), now, SatAdd(hiddenSince.value, cfg.hiddenMs.value)));
      }
      if cfg.memLimit.Some? {
        if memPending {
          best := MinOpt(best, Clamp(Model(), now, SatAdd(lastInput, cfg.safeIdleMs)));
        }
        best := MinOpt(best, nextMemSampleAt);
      }
    }
  }

  // ----- the deadline is exact -----

  /** What every event trace keeps (see EveryTrace). */
  predicate Consistent(p: Policy) {
    && (p.hiddenSince.Some? <==> !p.visible || !p.focused)
    && (p.memPending ==> p.cfg.memLimit.Some?)
    && (p.suppressed ==> p.memPending)
  }

  /** With no event in between, a poll at any later time fires exactly when that time has
      reached the least firing candidate computed now. */
  lemma DeadlineExact(p: Policy, now: nat, t: nat)
    requires Consistent(p) && now <= t
    ensures Poll(p, t).trigger.Some? <==> FiringDeadline(p, now).Some? && t >= FiringDeadline(p, now).value
  {
  }

  /** The wake-up the supervisor sleeps until is that instant, or that of the next memory sample
      where one is taken and due earlier: it is late for neither. */
  lemma EarlierOnlyForSamples(p: Policy, now: nat)
    ensures NextDeadline(p, now) != FiringDeadline(p, now) ==>
              && p.cfg.memLimit.Some? && NextDeadline(p, now) == Some(p.nextMemSampleAt)
              && (FiringDeadline(p, now).Some? ==> p.nextMemSampleAt < FiringDeadline(p, now).value)
    ensures p.cfg.memLimit.Some? ==> NextDeadline(p, now).Some? && NextDeadline(p, now).value <= p.nextMemSampleAt
    ensures FiringDeadline(p, now).Some? ==> NextDeadline(p, now).Some? && NextDeadline(p, now).value <= FiringDeadline(p, now).value
  {
  }

  /** A poll that does not fire changes nothing but the suppressed flag, so it moves no
      deadline. */
  lemma IdlePollMovesNothing(p: Policy, now: nat, t: nat)
    requires Poll(p, t).trigger.None?
    ensures var q := Poll(p, t).policy;
            && q == p.(suppressed := q.suppressed)
            && FiringDeadline(q, now) == FiringDeadline(p, now) && NextDeadline(q, now) == NextDeadline(p, now)
  {
  }

  /** The supervisor neither spins nor oversleeps: after a poll that fired nothing, with no
      sample due, the next deadline lies strictly ahead, and every poll before it would
      fire nothing either. */
  lemma SleepsExactlyLongEnough(p: Policy, now: nat, t: nat)
    requires Consistent(p) && Poll(p, now).trigger.None?
    requires p.cfg.memLimit.Some? ==> p.nextMemSampleAt > now
    ensures var q := Poll(p, now).policy;
            && (NextDeadline(q, now).Some? ==> NextDeadline(q, now).value > now)
            && ((now <= t && (NextDeadline(q, now).Some? ==> t < NextDeadline(q, now).value))
                ==> Poll(q, t).trigger.None?)
  {
    IdlePollMovesNothing(p, now, now);
    DeadlineExact(p, now, now);
    var q := Poll(p, now).policy;
    if now <= t {
      DeadlineExact(q, now, t);
    }
  }

  // ----- safety over whole traces -----

  datatype Event =
    | Input(at: nat)
    | SetFocus(on: bool, at: nat)
    | SetVisible(on: bool, at: nat)
    | Sample(bytes: nat, at: nat)
    | Switch(at: nat)
    | PollAt(at: nat)

  function React(p: Policy, e: Event): Fired {
    match e
    case Input(at) => Fired(UserInput(p, at), None)
    case SetFocus(on, at) => Fired(Focus(p, on, at), None)
    case SetVisible(on, at) => Fired(Visibility(p, on, at), None)
    case Sample(bytes, at) => Fired(MemSample(p, bytes, at), None)
    case Switch(at) => WorkspaceSwitch(p, at)
    case PollAt(at) => Poll(p, at)
  }

  /** The policy after the first n events. */
  function After(p: Policy, trace: seq<Event>, n: nat): Policy
    requires n <= |trace|
  {
    if n == 0 then p else React(After(p, trace, n - 1), trace[n - 1]).policy
  }

  function FiredAt(p: Policy, trace: seq<Event>, i: nat): Option<Trigger>
    requires i < |trace|
  {
    React(After(p, trace, i), trace[i]).trigger
  }

  predicate Ordered(start: nat, trace: seq<Event>) {
    forall i :: 0 <= i < |trace| ==> start <= trace[i].at && forall j :: i <= j < |trace| ==> trace[i].at <= trace[j].at
  }

  // What a single event can do.

  lemma StepConsistent(p: Policy, e: Event)
    ensures React(p, e).policy.cfg == p.cfg
    ensures Consistent(p) ==> Consistent(React(p, e).policy)
  {
    hide SatAdd, InCooldown;
    match e
    case PollAt(at) =>
    case _ =>
  }

  lemma StepCooldown(p: Policy, e: Event)
    ensures var r := React(p, e);
            if r.trigger.None? then r.policy.cooldownUntil == p.cooldownUntil
            else !InCooldown(p, e.at) && r.policy.cooldownUntil == Some(SatAdd(e.at, p.cfg.cooldownMs))
  {
  }

  lemma PollFields(p: Policy, now: nat)
    ensures var r := Poll(p, now);
            && (r.policy.idleArmed <==> p.idleArmed && r.trigger != Some(Idle))
            && r.policy.focused == p.focused && r.policy.visible == p.visible && r.policy.lastInput == p.lastInput
            && r.policy.hiddenSince == p.hiddenSince
            && (r.policy.hiddenFired <==> p.hiddenFired || r.trigger == Some(Hidden))
            && (r.policy.memPending <==> p.memPending && r.trigger != Some(MemWatchdog))
            && r.policy.nextMemSampleAt == p.nextMemSampleAt
  {
    hide SatAdd, InCooldown, IdleReady, HiddenReady, MemReady;
  }

  lemma StepInput(p: Policy, e: Event)
    ensures React(p, e).policy.lastInput == if e.Input? then e.at else p.lastInput
  {
    hide SatAdd, InCooldown, IdleReady, HiddenReady, MemReady;
    match e
    case Input(_) =>
    case SetFocus(_, _) =>
    case SetVisible(_, _) =>
    case Sample(_, _) =>
    case Switch(_) =>
    case PollAt(at) => PollFields(p, at);
  }

  predicate FullyShown(p: Policy) { p.focused && p.visible }

  lemma {:induction false} EveryTrace(cfg: Config, start: nat, trace: seq<Event>, n: nat)
    requires n <= |trace|
    ensures Consistent(After(Begin(cfg, start), trace, n)) && After(Begin(cfg, start), trace, n).cfg == cfg
  {
    hide React;
    if n > 0 {
      EveryTrace(cfg, start, trace, n - 1);
      StepConsistent(After(Begin(cfg, start), trace, n - 1), trace[n - 1]);
    }
  }

  lemma {:induction false} CfgFixed(p: Policy, trace: seq<Event>, n: nat)
    requires n <= |trace|
    ensures After(p, trace, n).cfg == p.cfg
  {
    hide React;
    if n > 0 {
      CfgFixed(p, trace, n - 1);
      StepConsistent(After(p, trace, n - 1), trace[n - 1]);
    }
  }

  /** Once a fire has set the cooldown, its end never moves back before the next fire. */
  lemma {:induction false} CooldownHolds(p: Policy, trace: seq<Event>, i: nat, j: nat)
    requires i < j <= |trace| && FiredAt(p, trace, i).Some?
    requires forall k :: i < k < j ==> FiredAt(p, trace, k).None?
    ensures After(p, trace, j).cooldownUntil == Some(SatAdd(trace[i].at, p.cfg.cooldownMs))
    ensures After(p, trace, j).cfg == p.cfg
    decreases j
  {
    hide React;
    CfgFixed(p, trace, j);
    CfgFixed(p, trace, i);
    StepCooldown(After(p, trace, j - 1), trace[j - 1]);
    if j > i + 1 {
      CooldownHolds(p, trace, i, j - 1);
      assert FiredAt(p, trace, j - 1).None?;
    }
  }

  /** Two fires of any kind are at least a cooldown apart (up to the u64 ceiling). */
  lemma {:induction false} FiresApart(p: Policy, start: nat, trace: seq<Event>, i: nat, j: nat)
    requires Ordered(start, trace) && i < j < |trace|
    requires FiredAt(p, trace, i).Some? && FiredAt(p, trace, j).Some?
    ensures trace[j].at >= SatAdd(trace[i].at, p.cfg.cooldownMs)
    decreases j - i
  {
    hide React;
    CfgFixed(p, trace, j);
    if k :| i < k < j && FiredAt(p, trace, k).Some? {
      FiresApart(p, start, trace, k, j);
      assert trace[i].at <= trace[k].at;
    } else {
      CooldownHolds(p, trace, i, j);
      StepCooldown(After(p, trace, j), trace[j]);
    }
  }

  lemma {:induction false} LastInputIsLatest(p: Policy, start: nat, trace: seq<Event>, n: nat)
    requires n <= |trace| && Ordered(start, trace) && p.lastInput <= start
    ensures forall k :: 0 <= k < n && trace[k].Input? ==> trace[k].at <= After(p, trace, n).lastInput
    ensures After(p, trace, n).lastInput == p.lastInput
         || exists k :: 0 <= k < n && trace[k].Input? && trace[k].at == After(p, trace, n).lastInput
  {
    hide React;
    if n > 0 {
      LastInputIsLatest(p, start, trace, n - 1);
      StepInput(After(p, trace, n - 1), trace[n - 1]);
      if trace[n - 1].Input? {
        assert trace[n - 1].at == After(p, trace, n).lastInput;
      }
    }
  }

  // ----- when exactly each trigger fires -----

  // The rule below speaks of the events and of earlier fires only, never of the policy's fields.

  /** Neither the start nor an input before event `n` is less than `ms` old. */
  predicate Quiet(start: nat, trace: seq<Event>, n: nat, ms: nat)
    requires n < |trace|
  {
    && trace[n].at >= SatAdd(start, ms)
    && forall k :: 0 <= k < n && trace[k].Input? ==> trace[n].at >= SatAdd(trace[k].at, ms)
  }

  /** The cooldown of every earlier fire is over. */
  predicate CooledDown(cfg: Config, start: nat, trace: seq<Event>, n: nat)
    requires n < |trace|
  {
    forall k :: 0 <= k < n && FiredAt(Begin(cfg, start), trace, k).Some? ==> trace[n].at >= SatAdd(trace[k].at, cfg.cooldownMs)
  }

  predicate IdleSpentBy(cfg: Config, start: nat, trace: seq<Event>, n: nat, i: nat)
    requires i < n <= |trace|
  {
    FiredAt(Begin(cfg, start), trace, i) == Some(Idle) && forall k :: i < k < n ==> !trace[k].Input?
  }

  /** Idle has fired since the latest input. */
  predicate IdleSpent(cfg: Config, start: nat, trace: seq<Event>, n: nat)
    requires n <= |trace|
  {
    exists i :: 0 <= i < n && IdleSpentBy(cfg, start, trace, n, i)
  }

  /** The latest focus event took the focus away. */
  predicate FocusLost(trace: seq<Event>, n: nat)
    requires n <= |trace|
  {
    exists k :: 0 <= k < n && trace[k].SetFocus? && !trace[k].on && forall m :: k < m < n ==> !trace[m].SetFocus?
  }

  /** The latest visibility event made the window invisible. */
  predicate MadeInvisible(trace: seq<Event>, n: nat)
    requires n <= |trace|
  {
    exists k :: 0 <= k < n && trace[k].SetVisible? && !trace[k].on && forall m :: k < m < n ==> !trace[m].SetVisible?
  }

  predicate Concealed(trace: seq<Event>, n: nat)
    requires n <= |trace|
  {
    FocusLost(trace, n) || MadeInvisible(trace, n)
  }

  /** Event `m` is no input and leaves the window concealed. */
  predicate GoesOn(trace: seq<Event>, m: nat)
    requires m < |trace|
  {
    !trace[m].Input? && Concealed(trace, m + 1)
  }

  /** The stretch of hiding without input that lasts after `n` events began with event `k`. */
  predicate HidingFrom(trace: seq<Event>, n: nat, k: nat)
    requires n <= |trace|
  {
    && k < n && Concealed(trace, k + 1) && (trace[k].Input? || !Concealed(trace, k))
    && forall m :: k < m < n ==> GoesOn(trace, m)
  }

  predicate HiddenSpentBy(cfg: Config, start: nat, trace: seq<Event>, n: nat, i: nat)
    requires i < n <= |trace|
  {
    FiredAt(Begin(cfg, start), trace, i) == Some(Hidden) && forall m :: i < m < n ==> GoesOn(trace, m)
  }

  /** Hidden has fired in the stretch that lasts after `n` events. */
  predicate HiddenSpent(cfg: Config, start: nat, trace: seq<Event>, n: nat)
    requires n <= |trace|
  {
    exists i :: 0 <= i < n && HiddenSpentBy(cfg, start, trace, n, i)
  }

  predicate OverLimitSince(cfg: Config, start: nat, trace: seq<Event>, n: nat, k: nat)
    requires k < n <= |trace|
  {
    && cfg.memLimit.Some? && trace[k].Sample? && trace[k].bytes > cfg.memLimit.value
    && forall m :: k < m < n ==> !trace[m].Sample? && FiredAt(Begin(cfg, start), trace, m) != Some(MemWatchdog)
  }

  /** The latest sample was over the limit and the watchdog has not fired since. */
  predicate OverLimit(cfg: Config, start: nat, trace: seq<Event>, n: nat)
    requires n <= |trace|
  {
    exists k :: 0 <= k < n && OverLimitSince(cfg, start, trace, n, k)
  }

  predicate MemDue(cfg: Config, start: nat, trace: seq<Event>, n: nat)
    requires n < |trace|
  {
    && OverLimit(cfg, start, trace, n)
    && (trace[n].Switch? || (trace[n].PollAt? && Quiet(start, trace, n, cfg.safeIdleMs)))
  }

  predicate IdleDue(cfg: Config, start: nat, trace: seq<Event>, n: nat)
    requires n < |trace|
  {
    trace[n].PollAt? && cfg.idleMs.Some? && !IdleSpent(cfg, start, trace, n) && Quiet(start, trace, n, cfg.idleMs.value)
  }

  predicate HiddenDue(cfg: Config, start: nat, trace: seq<Event>, n: nat)
    requires n < |trace|
  {
    && trace[n].PollAt? && cfg.hiddenMs.Some? && !HiddenSpent(cfg, start, trace, n)
    && exists k :: 0 <= k < n && HidingFrom(trace, n, k) && trace[n].at >= SatAdd(trace[k].at, cfg.hiddenMs.value)
  }

  // Field by field, the policy knows what the rule asks.

  lemma StepFields(p: Policy, e: Event)
    ensures var r := React(p, e);
            && (r.policy.idleArmed <==> e.Input? || (p.idleArmed && r.trigger != Some(Idle)))
            && (r.policy.focused <==> if e.SetFocus? then e.on else p.focused)
            && (r.policy.visible <==> if e.SetVisible? then e.on else p.visible)
            && (e.Input? ==> r.trigger.None?)
  {
    hide SatAdd, InCooldown, IdleReady, HiddenReady, MemReady;
    match e
    case Input(_) =>
    case SetFocus(_, _) =>
    case SetVisible(_, _) =>
    case Sample(_, _) =>
    case Switch(_) =>
    case PollAt(at) => PollFields(p, at);
  }

  lemma PollHidden(p: Policy, now: nat)
    ensures Poll(p, now).trigger == Some(Hidden) ==> HiddenReady(p, now)
  {
    hide SatAdd, InCooldown, IdleReady, MemReady, HiddenReady;
  }

  lemma StepStretch(p: Policy, e: Event)
    requires Consistent(p) && (p.hiddenFired ==> p.hiddenSince.Some?)
    ensures var r := React(p, e);
            && r.policy.hiddenSince == (if FullyShown(r.policy) then None
                                        else if p.hiddenSince.None? || e.Input? then Some(e.at)
                                        else p.hiddenSince)
            && (r.policy.hiddenFired <==>
                  !FullyShown(r.policy) && !e.Input? && (p.hiddenFired || r.trigger == Some(Hidden)))
            && (r.trigger == Some(Hidden) ==> !FullyShown(r.policy) && e.PollAt? && HiddenReady(p, e.at))
  {
    hide SatAdd, InCooldown;
    match e
    case Input(_) =>
    case SetFocus(_, _) =>
    case SetVisible(_, _) =>
    case Sample(_, _) =>
    case Switch(_) =>
    case PollAt(at) =>
      PollFields(p, at);
      PollHidden(p, at);
  }

  lemma StepPending(p: Policy, e: Event)
    requires Consistent(p)
    ensures var r := React(p, e);
            r.policy.memPending <==>
              && p.cfg.memLimit.Some?
              && if e.Sample? then e.bytes > p.cfg.memLimit.value else p.memPending && r.trigger != Some(MemWatchdog)
  {
    hide SatAdd, InCooldown, IdleReady, HiddenReady, MemReady;
    match e
    case Input(_) =>
    case SetFocus(_, _) =>
    case SetVisible(_, _) =>
    case Sample(_, _) =>
    case Switch(_) =>
    case PollAt(at) => PollFields(p, at);
  }

  lemma IdleStep(cfg: Config, start: nat, trace: seq<Event>, n: nat)
    requires 0 < n <= |trace|
    ensures IdleSpent(cfg, start, trace, n) <==>
              || FiredAt(Begin(cfg, start), trace, n - 1) == Some(Idle)
              || (IdleSpent(cfg, start, trace, n - 1) && !trace[n - 1].Input?)
  {
    hide FiredAt;
    if FiredAt(Begin(cfg, start), trace, n - 1) == Some(Idle) {
      assert IdleSpentBy(cfg, start, trace, n, n - 1);
    } else if IdleSpent(cfg, start, trace, n) {
      var i :| 0 <= i < n && IdleSpentBy(cfg, start, trace, n, i);
      assert IdleSpentBy(cfg, start, trace, n - 1, i);
    }
    if IdleSpent(cfg, start, trace, n - 1) && !trace[n - 1].Input? {
      var i :| 0 <= i < n - 1 && IdleSpentBy(cfg, start, trace, n - 1, i);
      assert IdleSpentBy(cfg, start, trace, n, i);
    }
  }

  lemma {:induction false} ArmedExact(cfg: Config, start: nat, trace: seq<Event>, n: nat)
    requires n <= |trace|
    ensures After(Begin(cfg, start), trace, n).idleArmed <==> !IdleSpent(cfg, start, trace, n)
  {
    hide React;
    if n > 0 {
      ArmedExact(cfg, start, trace, n - 1);
      StepFields(After(Begin(cfg, start), trace, n - 1), trace[n - 1]);
      IdleStep(cfg, start, trace, n);
    }
  }

  lemma FocusStep(trace: seq<Event>, n: nat)
    requires n < |trace|
    ensures FocusLost(trace, n + 1) <==> if trace[n].SetFocus? then !trace[n].on else FocusLost(trace, n)
  {
  }

  lemma VisibleStep(trace: seq<Event>, n: nat)
    requires n < |trace|
    ensures MadeInvisible(trace, n + 1) <==> if trace[n].SetVisible? then !trace[n].on else MadeInvisible(trace, n)
  {
  }

  lemma NothingYet(trace: seq<Event>)
    ensures !FocusLost(trace, 0) && !MadeInvisible(trace, 0)
  {
  }

  lemma {:induction false} WindowExact(cfg: Config, start: nat, trace: seq<Event>, n: nat)
    requires n <= |trace|
    ensures var p := After(Begin(cfg, start), trace, n);
            && (p.focused <==> !FocusLost(trace, n)) && (p.visible <==> !MadeInvisible(trace, n))
            && (FullyShown(p) <==> !Concealed(trace, n))
  {
    hide React, FocusLost, MadeInvisible;
    if n > 0 {
      WindowExact(cfg, start, trace, n - 1);
      StepFields(After(Begin(cfg, start), trace, n - 1), trace[n - 1]);
      FocusStep(trace, n - 1);
      VisibleStep(trace, n - 1);
    } else {
      NothingYet(trace);
    }
  }

  ghost predicate StretchKnown(cfg: Config, start: nat, trace: seq<Event>, n: nat)
    requires n <= |trace|
  {
    var p := After(Begin(cfg, start), trace, n);
    && (p.hiddenFired <==> HiddenSpent(cfg, start, trace, n))
    && (p.hiddenFired ==> p.hiddenSince.Some?)
    && (p.hiddenSince.Some? ==> exists k :: 0 <= k < n && HidingFrom(trace, n, k) && p.hiddenSince == Some(trace[k].at))
  }

  lemma SpentStep(cfg: Config, start: nat, trace: seq<Event>, n: nat)
    requires 0 < n <= |trace|
    ensures HiddenSpent(cfg, start, trace, n) <==>
              || FiredAt(Begin(cfg, start), trace, n - 1) == Some(Hidden)
              || (HiddenSpent(cfg, start, trace, n - 1) && GoesOn(trace, n - 1))
  {
    hide FiredAt, GoesOn;
    if FiredAt(Begin(cfg, start), trace, n - 1) == Some(Hidden) {
      assert HiddenSpentBy(cfg, start, trace, n, n - 1);
    } else if HiddenSpent(cfg, start, trace, n) {
      var i :| 0 <= i < n && HiddenSpentBy(cfg, start, trace, n, i);
      assert HiddenSpentBy(cfg, start, trace, n - 1, i);
    }
    if HiddenSpent(cfg, start, trace, n - 1) && GoesOn(trace, n - 1) {
      var i :| 0 <= i < n - 1 && HiddenSpentBy(cfg, start, trace, n - 1, i);
      assert HiddenSpentBy(cfg, start, trace, n, i);
    }
  }

  lemma {:induction false} StretchExact(cfg: Config, start: nat, trace: seq<Event>, n: nat)
    requires n <= |trace|
    ensures StretchKnown(cfg, start, trace, n)
  {
    hide React, Concealed;
    if n > 0 {
      StretchExact(cfg, start, trace, n - 1);
      EveryTrace(cfg, start, trace, n - 1);
      var p, e := After(Begin(cfg, start), trace, n - 1), trace[n - 1];
      StepStretch(p, e);
      WindowExact(cfg, start, trace, n);
      WindowExact(cfg, start, trace, n - 1);
      SpentStep(cfg, start, trace, n);
      if Concealed(trace, n) {
        if p.hiddenSince.Some? && !e.Input? {
          var k :| 0 <= k < n - 1 && HidingFrom(trace, n - 1, k) && p.hiddenSince == Some(trace[k].at);
          assert HidingFrom(trace, n, k);
        } else {
          assert HidingFrom(trace, n, n - 1);
        }
      }
    }
  }

  lemma Covered(trace: seq<Event>, n: nat, k: nat, l: nat)
    requires n <= |trace| && HidingFrom(trace, n, k) && k < l < n
    ensures GoesOn(trace, l) && Concealed(trace, l)
  {
    hide Concealed;
    assert GoesOn(trace, l);
    if l > k + 1 {
      assert GoesOn(trace, l - 1);
    }
  }

  /** There is at most one such beginning. */
  lemma OneBeginning(trace: seq<Event>, n: nat, k: nat, l: nat)
    requires n <= |trace| && HidingFrom(trace, n, k) && HidingFrom(trace, n, l)
    ensures k == l
  {
    hide Concealed;
    assert Concealed(trace, k + 1) && Concealed(trace, l + 1);
    if k < l {
      Covered(trace, n, k, l);
    } else if l < k {
      Covered(trace, n, l, k);
    }
  }

  lemma OverStep(cfg: Config, start: nat, trace: seq<Event>, n: nat)
    requires 0 < n <= |trace|
    ensures OverLimit(cfg, start, trace, n) <==>
              && cfg.memLimit.Some?
              && if trace[n - 1].Sample? then trace[n - 1].bytes > cfg.memLimit.value
                 else OverLimit(cfg, start, trace, n - 1) && FiredAt(Begin(cfg, start), trace, n - 1) != Some(MemWatchdog)
  {
    hide FiredAt;
    if cfg.memLimit.Some? && trace[n - 1].Sample? && trace[n - 1].bytes > cfg.memLimit.value {
      assert OverLimitSince(cfg, start, trace, n, n - 1);
    } else if OverLimit(cfg, start, trace, n) {
      var k :| 0 <= k < n && OverLimitSince(cfg, start, trace, n, k);
      assert OverLimitSince(cfg, start, trace, n - 1, k);
    } else if OverLimit(cfg, start, trace, n - 1) {
      var k :| 0 <= k < n - 1 && OverLimitSince(cfg, start, trace, n - 1, k);
      assert !OverLimitSince(cfg, start, trace, n, k);
    }
  }

  /** A pending watchdog means exactly that the latest sample was over the limit and nothing has
      fired for it since. */
  lemma {:induction false} PendingExact(cfg: Config, start: nat, trace: seq<Event>, n: nat)
    requires n <= |trace|
    ensures After(Begin(cfg, start), trace, n).memPending <==> OverLimit(cfg, start, trace, n)
  {
    hide React;
    if n > 0 {
      PendingExact(cfg, start, trace, n - 1);
      EveryTrace(cfg, start, trace, n - 1);
      StepPending(After(Begin(cfg, start), trace, n - 1), trace[n - 1]);
      OverStep(cfg, start, trace, n);
    }
  }

  lemma QuietExact(cfg: Config, start: nat, trace: seq<Event>, n: nat, ms: nat)
    requires Ordered(start, trace) && n < |trace|
    ensures trace[n].at >= SatAdd(After(Begin(cfg, start), trace, n).lastInput, ms) <==> Quiet(start, trace, n, ms)
  {
    LastInputIsLatest(Begin(cfg, start), start, trace, n);
  }

  lemma SaturatedOrder(a: nat, b: nat, c: nat)
    requires a <= b
    ensures SatAdd(a, c) <= SatAdd(b, c)
  {
  }

  lemma FiredIs(p: Policy, trace: seq<Event>, n: nat)
    requires n < |trace|
    ensures FiredAt(p, trace, n) == React(After(p, trace, n), trace[n]).trigger
  {
  }

  /** The cooldown in force is that of the latest fire. */
  lemma {:induction false} CooldownKnown(cfg: Config, start: nat, trace: seq<Event>, n: nat)
    requires Ordered(start, trace) && n <= |trace|
    ensures var until := After(Begin(cfg, start), trace, n).cooldownUntil;
            && (until.Some? ==> exists k :: 0 <= k < n && FiredAt(Begin(cfg, start), trace, k).Some?
                                            && until.value == SatAdd(trace[k].at, cfg.cooldownMs))
            && forall k :: 0 <= k < n && FiredAt(Begin(cfg, start), trace, k).Some? ==>
                 until.Some? && SatAdd(trace[k].at, cfg.cooldownMs) <= until.value
  {
    hide React, FiredAt, SatAdd;
    if n > 0 {
      var e := trace[n - 1];
      FiredIs(Begin(cfg, start), trace, n - 1);
      forall k | 0 <= k < n ensures SatAdd(trace[k].at, cfg.cooldownMs) <= SatAdd(e.at, cfg.cooldownMs) {
        SaturatedOrder(trace[k].at, e.at, cfg.cooldownMs);
      }
      CooldownKnown(cfg, start, trace, n - 1);
      CfgFixed(Begin(cfg, start), trace, n - 1);
      StepCooldown(After(Begin(cfg, start), trace, n - 1), trace[n - 1]);
    }
  }

  lemma CooledExact(cfg: Config, start: nat, trace: seq<Event>, n: nat)
    requires Ordered(start, trace) && n < |trace|
    ensures InCooldown(After(Begin(cfg, start), trace, n), trace[n].at) <==> !CooledDown(cfg, start, trace, n)
  {
    hide React, FiredAt;
    CooldownKnown(cfg, start, trace, n);
  }

  lemma HidingConceals(trace: seq<Event>, n: nat, k: nat)
    requires n <= |trace| && HidingFrom(trace, n, k)
    ensures k < n && Concealed(trace, n)
  {
    assert k < n - 1 ==> GoesOn(trace, n - 1);
  }

  lemma HiddenDueExact(cfg: Config, start: nat, trace: seq<Event>, n: nat)
    requires n < |trace| && trace[n].PollAt?
    ensures HiddenReady(After(Begin(cfg, start), trace, n), trace[n].at) <==> HiddenDue(cfg, start, trace, n)
  {
    hide React, FiredAt, HidingFrom;
    var p := After(Begin(cfg, start), trace, n);
    CfgFixed(Begin(cfg, start), trace, n);
    StretchExact(cfg, start, trace, n);
    EveryTrace(cfg, start, trace, n);
    WindowExact(cfg, start, trace, n);
    forall k: nat | k < n && HidingFrom(trace, n, k) ensures p.hiddenSince == Some(trace[k].at) {
      HidingConceals(trace, n, k);
      var l :| 0 <= l < n && HidingFrom(trace, n, l) && p.hiddenSince == Some(trace[l].at);
      OneBeginning(trace, n, k, l);
    }
  }

  lemma NotDue(cfg: Config, start: nat, trace: seq<Event>, n: nat)
    requires n < |trace| && !trace[n].PollAt?
    ensures !HiddenDue(cfg, start, trace, n)
  {
  }

  /** What fires at each event of every trace in time order: the watchdog, at a poll or a change
      of workspace; else idle, else hidden, at a poll; each if and only if it is due by the events
      and earlier fires, and no cooldown runs. */
  lemma FiresExactly(cfg: Config, start: nat, trace: seq<Event>, n: nat)
    requires Ordered(start, trace) && n < |trace|
    ensures FiredAt(Begin(cfg, start), trace, n) ==
              if !CooledDown(cfg, start, trace, n) then None
              else if MemDue(cfg, start, trace, n) then Some(MemWatchdog)
              else if IdleDue(cfg, start, trace, n) then Some(Idle)
              else if HiddenDue(cfg, start, trace, n) then Some(Hidden)
              else None
  {
    hide After, Quiet, CooledDown, IdleSpent, HiddenDue, HiddenReady, OverLimit, InCooldown, SatAdd;
    CfgFixed(Begin(cfg, start), trace, n);
    CooledExact(cfg, start, trace, n);
    ArmedExact(cfg, start, trace, n);
    PendingExact(cfg, start, trace, n);
    QuietExact(cfg, start, trace, n, cfg.safeIdleMs);
    if cfg.idleMs.Some? {
      QuietExact(cfg, start, trace, n, cfg.idleMs.value);
    }
    if trace[n].PollAt? {
      HiddenDueExact(cfg, start, trace, n);
    } else {
      NotDue(cfg, start, trace, n);
    }
  }

  /** Idle fires once per activity: between two idle fires there is a user input, and none
      falls within the idle time before a fire. */
  lemma IdleNeedsInput(p: Policy, start: nat, trace: seq<Event>, j: nat)
    requires p == Begin(p.cfg, start) && Ordered(start, trace) && j < |trace|
    requires FiredAt(p, trace, j) == Some(Idle)
    ensures p.cfg.idleMs.Some?
    ensures forall k :: 0 <= k < j && trace[k].Input? ==> trace[j].at >= SatAdd(trace[k].at, p.cfg.idleMs.value)
    ensures forall i :: 0 <= i < j && FiredAt(p, trace, i) == Some(Idle) ==>
              exists k :: i < k < j && trace[k].Input?
  {
    hide FiredAt, HiddenDue, MemDue, CooledDown;
    FiresExactly(p.cfg, start, trace, j);
    forall i | 0 <= i < j && FiredAt(p, trace, i) == Some(Idle)
      ensures exists k :: i < k < j && trace[k].Input?
    {
      assert !IdleSpentBy(p.cfg, start, trace, j, i);
    }
  }

  lemma HiddenFireFacts(cfg: Config, start: nat, trace: seq<Event>, j: nat)
    requires j < |trace| && FiredAt(Begin(cfg, start), trace, j) == Some(Hidden)
    ensures trace[j].PollAt? && HiddenDue(cfg, start, trace, j)
  {
    hide React, HiddenReady, HiddenDue;
    EveryTrace(cfg, start, trace, j);
    StretchExact(cfg, start, trace, j);
    StepStretch(After(Begin(cfg, start), trace, j), trace[j]);
    HiddenDueExact(cfg, start, trace, j);
  }

  /** Hidden fires at most once per uninterrupted hidden stretch: between two such fires the
      window was fully shown or the user gave input. */
  lemma HiddenOncePerStretch(cfg: Config, start: nat, trace: seq<Event>, i: nat, j: nat)
    requires i < j < |trace|
    requires FiredAt(Begin(cfg, start), trace, i) == Some(Hidden)
    requires FiredAt(Begin(cfg, start), trace, j) == Some(Hidden)
    ensures exists k :: i < k < j && !GoesOn(trace, k)
  {
    HiddenFireFacts(cfg, start, trace, j);
    hide FiredAt, GoesOn;
    assert !HiddenSpentBy(cfg, start, trace, j, i);
  }

  /** And the window has then been hidden, without input, for the configured time. */
  lemma HiddenFiresAfterHiddenTime(cfg: Config, start: nat, trace: seq<Event>, j: nat) returns (k: nat)
    requires j < |trace| && FiredAt(Begin(cfg, start), trace, j) == Some(Hidden)
    ensures HidingFrom(trace, j, k)
    ensures cfg.hiddenMs.Some? && trace[j].at >= SatAdd(trace[k].at, cfg.hiddenMs.value)
  {
    HiddenFireFacts(cfg, start, trace, j);
    k :| 0 <= k < j && HidingFrom(trace, j, k) && trace[j].at >= SatAdd(trace[k].at, cfg.hiddenMs.value);
  }

  /** At event `i` the watchdog was due but the cooldown of a fire held it back. */
  predicate HeldBack(cfg: Config, start: nat, trace: seq<Event>, i: nat)
    requires i < |trace|
  {
    MemDue(cfg, start, trace, i) && !CooledDown(cfg, start, trace, i)
  }

  /** It was held back, and since then it has neither fired nor seen memory recover. */
  predicate StillHeldBack(cfg: Config, start: nat, trace: seq<Event>, n: nat, i: nat)
    requires i < n <= |trace|
  {
    && HeldBack(cfg, start, trace, i)
    && forall m :: i < m < n ==>
         && FiredAt(Begin(cfg, start), trace, m) != Some(MemWatchdog)
         && !(trace[m].Sample? && cfg.memLimit.Some? && trace[m].bytes <= cfg.memLimit.value)
  }

  lemma PollSuppressed(p: Policy, now: nat)
    requires Consistent(p)
    ensures var r := Poll(p, now);
            r.policy.suppressed <==>
              || (MemReady(p, now) && InCooldown(p, now))
              || (p.suppressed && r.trigger != Some(MemWatchdog))
  {
    hide SatAdd, InCooldown, IdleReady, HiddenReady, MemReady;
  }

  lemma StepSuppressed(p: Policy, e: Event)
    requires Consistent(p)
    ensures var r := React(p, e);
            r.policy.suppressed <==>
              || (p.memPending && InCooldown(p, e.at) && (e.Switch? || (e.PollAt? && e.at >= SatAdd(p.lastInput, p.cfg.safeIdleMs))))
              || (p.suppressed && r.trigger != Some(MemWatchdog)
                  && !(e.Sample? && p.cfg.memLimit.Some? && e.bytes <= p.cfg.memLimit.value))
  {
    hide SatAdd, InCooldown;
    match e
    case Input(_) =>
    case SetFocus(_, _) =>
    case SetVisible(_, _) =>
    case Sample(_, _) =>
    case Switch(_) =>
    case PollAt(at) => PollSuppressed(p, at);
  }

  lemma HeldBackExact(cfg: Config, start: nat, trace: seq<Event>, n: nat)
    requires Ordered(start, trace) && n < |trace|
    ensures var p, e := After(Begin(cfg, start), trace, n), trace[n];
            (p.memPending && InCooldown(p, e.at) && (e.Switch? || (e.PollAt? && e.at >= SatAdd(p.lastInput, cfg.safeIdleMs))))
            <==> HeldBack(cfg, start, trace, n)
  {
    hide After, Quiet, CooledDown, OverLimit, InCooldown, SatAdd;
    CooledExact(cfg, start, trace, n);
    PendingExact(cfg, start, trace, n);
    QuietExact(cfg, start, trace, n, cfg.safeIdleMs);
  }

  /** What is reported as suppressed, exactly. */
  lemma {:induction false} SuppressedExactly(cfg: Config, start: nat, trace: seq<Event>, n: nat)
    requires Ordered(start, trace) && n <= |trace|
    ensures After(Begin(cfg, start), trace, n).suppressed <==> exists i :: 0 <= i < n && StillHeldBack(cfg, start, trace, n, i)
  {
    hide React, FiredAt, HeldBack;
    if n > 0 {
      var p := After(Begin(cfg, start), trace, n - 1);
      SuppressedExactly(cfg, start, trace, n - 1);
      EveryTrace(cfg, start, trace, n - 1);
      StepSuppressed(p, trace[n - 1]);
      HeldBackExact(cfg, start, trace, n - 1);
      assert FiredAt(Begin(cfg, start), trace, n - 1) == React(p, trace[n - 1]).trigger by { FiredIs(Begin(cfg, start), trace, n - 1); }
      if HeldBack(cfg, start, trace, n - 1) {
        assert StillHeldBack(cfg, start, trace, n, n - 1);
      } else if After(Begin(cfg, start), trace, n).suppressed {
        var i :| 0 <= i < n - 1 && StillHeldBack(cfg, start, trace, n - 1, i);
        assert StillHeldBack(cfg, start, trace, n, i);
      }
      if i :| 0 <= i < n - 1 && StillHeldBack(cfg, start, trace, n, i) {
        assert StillHeldBack(cfg, start, trace, n - 1, i);
      }
    }
  }

  lemma StepSampleAt(p: Policy, e: Event)
    requires p.cfg.memLimit.Some?
    ensures React(p, e).policy.nextMemSampleAt == if e.Sample? then SatAdd(e.at, p.cfg.memPollMs) else p.nextMemSampleAt
  {
    hide SatAdd, InCooldown, IdleReady, HiddenReady, MemReady;
    match e
    case Input(_) =>
    case SetFocus(_, _) =>
    case SetVisible(_, _) =>
    case Sample(_, _) =>
    case Switch(_) =>
    case PollAt(at) => PollFields(p, at);
  }

  /** And when the next sample is due: a period after the latest one, or after the start. */
  lemma {:induction false} SampleDueExactly(cfg: Config, start: nat, trace: seq<Event>, n: nat)
    requires Ordered(start, trace) && n <= |trace| && cfg.memLimit.Some?
    ensures var due := After(Begin(cfg, start), trace, n).nextMemSampleAt;
            && due >= SatAdd(start, cfg.memPollMs)
            && (forall k :: 0 <= k < n && trace[k].Sample? ==> due >= SatAdd(trace[k].at, cfg.memPollMs))
            && (due == SatAdd(start, cfg.memPollMs)
                || exists k :: 0 <= k < n && trace[k].Sample? && due == SatAdd(trace[k].at, cfg.memPollMs))
  {
    hide React;
    if n > 0 {
      SampleDueExactly(cfg, start, trace, n - 1);
      CfgFixed(Begin(cfg, start), trace, n - 1);
      StepSampleAt(After(Begin(cfg, start), trace, n - 1), trace[n - 1]);
    }
  }
}
