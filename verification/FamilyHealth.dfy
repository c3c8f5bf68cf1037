/** Address families and which of them a dial policy lets the process use. */
module AddressFamilies {
  datatype AddressFamily = Ipv4 | Ipv6 {
    function Alternate(): AddressFamily { if this == Ipv4 then Ipv6 else Ipv4 }
  }

  datatype DialPolicy = Auto | PreferIpv4 | PreferIpv6 | Ipv4Only | Ipv6Only {
    predicate Allows(family: AddressFamily) {
      if family == AddressFamily.Ipv4 then this != Ipv6Only else this != Ipv4Only
    }
  }

  datatype Routes = Routes(v4: bool, v6: bool) {
    predicate Has(family: AddressFamily) { if family == Ipv4 then v4 else v6 }
  }

  function InitialPrimary(mode: DialPolicy, routes: Routes, system: AddressFamily): AddressFamily {
    match mode
    case Ipv4Only => AddressFamily.Ipv4
    case Ipv6Only => AddressFamily.Ipv6
    case PreferIpv4 => if routes.v4 || !routes.v6 then AddressFamily.Ipv4 else AddressFamily.Ipv6
    case PreferIpv6 => if routes.v6 || !routes.v4 then AddressFamily.Ipv6 else AddressFamily.Ipv4
    case Auto =>
      if routes.v4 && !routes.v6 then AddressFamily.Ipv4
      else if !routes.v4 && routes.v6 then AddressFamily.Ipv6
      else system
  }

  /** The initial primary is allowed, and routed whenever some allowed family is. */
  lemma InitialPrimaryUsable(mode: DialPolicy, routes: Routes, system: AddressFamily, other: AddressFamily)
    ensures mode.Allows(InitialPrimary(mode, routes, system))
    ensures mode.Allows(other) && routes.Has(other) ==> routes.Has(InitialPrimary(mode, routes, system))
  {
    assert other == Ipv4 || other == Ipv6;
  }

  /** The family a policy names, or the system's where it names none. */
  function Choice(mode: DialPolicy, system: AddressFamily): AddressFamily {
    if mode in {Ipv4Only, PreferIpv4} then AddressFamily.Ipv4
    else if mode in {Ipv6Only, PreferIpv6} then AddressFamily.Ipv6
    else system
  }

  /** Exactly when the process starts with the family of choice: the policy leaves no other, it has a route,
      or the other has none. */
  lemma InitialPrimaryExactly(mode: DialPolicy, routes: Routes, system: AddressFamily)
    ensures var choice := Choice(mode, system);
            InitialPrimary(mode, routes, system) == choice <==>
              mode in {Ipv4Only, Ipv6Only} || routes.Has(choice) || !routes.Has(choice.Alternate())
  {
  }
}

/**
 Passive family health (src/network.rs): which address family the process prefers, moved only by
 route changes, repeated strong failures, repeated weak losses and confirmed recoveries.

 `Env` is the shared state and `Step` the effect of one operation on it; the class updates the
 state field by field.  A history is a sequence of operations with the states between them.
 */
module FamilyHealth {
  import opened Words
  import opened AddressFamilies

  const HARD_FAILURE_THRESHOLD := 2
  const WEAK_LOSS_THRESHOLD := 3
  const RECOVERY_SUCCESS_THRESHOLD := 2

  datatype Health = Health(
    penaltyUntil: nat,
    nextProbe: nat,
    lastSuccess: nat,
    latency: nat,
    hardFailures: nat,
    weakLosses: nat,
    recoveries: nat
  )

  const FRESH := Health(0, 0, 0, 0, 0, 0, 0)

  datatype Evidence = StrongFamily | ReachableEndpoint | DestinationOnly

  function Classify(errno: nat): Evidence {
    if errno in {97, 93, 101, 113, 99, 19} then StrongFamily
    else if errno in {111, 104} then ReachableEndpoint
    else DestinationOnly
  }

  datatype Env = Env(
    mode: DialPolicy,
    initial: AddressFamily,
    routes: Routes,
    primary: AddressFamily,
    ipv4: Health,
    ipv6: Health
  ) {
    function Of(family: AddressFamily): Health { if family == Ipv4 then ipv4 else ipv6 }

    function With(family: AddressFamily, health: Health): Env {
      if family == Ipv4 then this.(ipv4 := health) else this.(ipv6 := health)
    }

    predicate Penalized(family: AddressFamily, now: nat) { Of(family).penaltyUntil > now }

    /** The family the process returns to when it recovers. */
    function Preferred(): AddressFamily {
      match mode
      case PreferIpv4 => AddressFamily.Ipv4
      case Ipv4Only => AddressFamily.Ipv4
      case PreferIpv6 => AddressFamily.Ipv6
      case Ipv6Only => AddressFamily.Ipv6
      case Auto => initial
    }

    /** Another family may take over: the policy allows it and it has a route. */
    predicate Usable(family: AddressFamily) { mode.Allows(family) && routes.Has(family) }

    /** A recovery probe of the family is due at `now`. */
    predicate ProbeDue(family: AddressFamily, now: nat) {
      && family != primary && family == Preferred() && routes.Has(family) && !Penalized(family, now)
      && 0 != Of(family).nextProbe <= now
    }
  }

  function Start(mode: DialPolicy, routes: Routes, system: AddressFamily): Env {
    var primary := InitialPrimary(mode, routes, system);
    Env(mode, primary, routes, primary, FRESH, FRESH)
  }

  // ---- The operations on values ----

  datatype Event =
    | RoutesSeen(routes: Routes, now: nat)
    | Succeeded(family: AddressFamily, latency: nat, now: nat, memory: nat)
    | Failed(family: AddressFamily, errno: nat, penalty: nat, now: nat)
    | AlternateWon(winner: AddressFamily, loser: AddressFamily)
    | Planned(now: nat, retry: nat)

  function Rerouted(env: Env, routes: Routes): Env {
    var seen := env.(routes := routes);
    var other := env.primary.Alternate();
    if !routes.Has(env.primary) && seen.Usable(other)
    then seen.(primary := other).With(other, env.Of(other).(recoveries := 0))
    else seen
  }

  function Rearmed(before: Env, env: Env, now: nat): Env {
    var preferred := env.Preferred();
    if !before.routes.Has(preferred) && env.routes.Has(preferred) && env.primary != preferred
    then env.With(preferred, env.Of(preferred).(nextProbe := now))
    else env
  }

  /** The moving average: a remembered average counts seven times, a forgotten one not at all. */
  function Average(health: Health, latency: nat, now: nat, memory: nat): nat {
    var sample := Max(Min(latency, U64_MAX), 1);
    var previous :=
      if health.lastSuccess != 0 && SatSub(now, health.lastSuccess) <= memory then health.latency else 0;
    Max(if previous == 0 then sample else SatAdd64(SatMul64(previous, 7), sample) / 8, 1)
  }

  function Cleared(health: Health, latency: nat, now: nat, memory: nat): Health {
    health.(latency := Average(health, latency, now, memory), lastSuccess := Max(now, 1),
            hardFailures := 0, weakLosses := 0, penaltyUntil := 0)
  }

  predicate Recovers(env: Env, family: AddressFamily) {
    && SatInc8(env.Of(family).recoveries) >= RECOVERY_SUCCESS_THRESHOLD
    && env.Preferred() == family && env.routes.Has(family)
  }

  function AfterSuccess(env: Env, family: AddressFamily, latency: nat, now: nat, memory: nat): Env {
    var health := Cleared(env.Of(family), latency, now, memory);
    if family == env.primary then env.With(family, health.(recoveries := 0))
    else if Recovers(env, family) then
      env.(primary := family).With(family, health.(recoveries := 0, nextProbe := 0))
    else env.With(family, health.(recoveries := SatInc8(health.recoveries), nextProbe := now))
  }

  function FailedOver(env: Env, family: AddressFamily, penalty: nat, now: nat): Env {
    var until := SatAdd64(now, penalty);
    var health := env.Of(family);
    var marked := env.With(family, health.(penaltyUntil := Max(health.penaltyUntil, until),
                                           nextProbe := Max(health.nextProbe, until)));
    var other := family.Alternate();
    if env.primary == family && env.Usable(other) then marked.(primary := other) else marked
  }

  function AfterError(env: Env, family: AddressFamily, errno: nat, penalty: nat, now: nat): Env {
    match Classify(errno)
    case ReachableEndpoint => env.With(family, env.Of(family).(hardFailures := 0, penaltyUntil := 0))
    case DestinationOnly => env
    case StrongFamily =>
      var counted := env.With(family, env.Of(family).(hardFailures := SatInc8(env.Of(family).hardFailures)));
      if counted.Of(family).hardFailures >= HARD_FAILURE_THRESHOLD then FailedOver(counted, family, penalty, now)
      else counted
  }

  function AfterAlternate(env: Env, winner: AddressFamily, loser: AddressFamily): Env {
    if winner == loser || env.primary != loser then env
    else
      var losses := SatInc8(env.Of(loser).weakLosses);
      if losses >= WEAK_LOSS_THRESHOLD && env.Usable(winner)
      then env.(primary := winner).With(loser, env.Of(loser).(weakLosses := 0))
      else env.With(loser, env.Of(loser).(weakLosses := losses))
  }

  function AfterPlan(env: Env, now: nat, retry: nat): Env {
    var other := env.primary.Alternate();
    if env.ProbeDue(other, now)
    then env.With(other, env.Of(other).(nextProbe := SatAdd64(now, retry)))
    else env
  }

  /** The family a plan starts from: a claimed probe, else the healthier of the two, else the primary. */
  function FirstFamily(env: Env, now: nat): AddressFamily {
    var other := env.primary.Alternate();
    if env.ProbeDue(other, now) then other
    else if env.Penalized(env.primary, now) && !env.Penalized(other, now) then other
    else if !env.routes.Has(env.primary) && env.routes.Has(other) then other
    else env.primary
  }

  function Step(env: Env, event: Event): Env {
    match event
    case RoutesSeen(routes, now) => Rearmed(env, Rerouted(env, routes), now)
    case Succeeded(family, latency, now, memory) => AfterSuccess(env, family, latency, now, memory)
    case Failed(family, errno, penalty, now) => AfterError(env, family, errno, penalty, now)
    case AlternateWon(winner, loser) => AfterAlternate(env, winner, loser)
    case Planned(now, retry) => AfterPlan(env, now, retry)
  }

  // ---- What one operation does, field by field ----

  /** The errors that speak against a family, and those that show it works; all others say nothing. */
  lemma ErrnosExactly(errno: nat)
    ensures Classify(errno) == StrongFamily <==>
            errno == 97 || errno == 93 || errno == 101 || errno == 113 || errno == 99 || errno == 19
    ensures Classify(errno) == ReachableEndpoint <==> errno == 111 || errno == 104
  {
  }

  /** The family that recovery leads back to: the one the policy names, or the one the process began with. */
  predicate ReturnsTo(env: Env, family: AddressFamily) { family == Choice(env.mode, env.initial) }

  lemma PreferredExactly(env: Env, family: AddressFamily)
    ensures env.Preferred() == family <==> ReturnsTo(env, family)
  {
  }

  /** A probe of the alternate is due: it is the family to return to, has a route, has no penalty left to run
      and its probe time has come. */
  predicate AlternateDue(env: Env, now: nat) {
    var other := env.primary.Alternate();
    && ReturnsTo(env, other) && env.routes.Has(other)
    && env.Of(other).penaltyUntil <= now && 0 < env.Of(other).nextProbe <= now
  }

  lemma DueExactly(env: Env, family: AddressFamily, now: nat)
    ensures env.ProbeDue(family, now) <==> family == env.primary.Alternate() && AlternateDue(env, now)
  {
    PreferredExactly(env, family);
  }

  /** Exactly when a plan starts from the other family than the primary: a probe of it is due, or the primary
      is penalized and it is not, or it has a route and the primary has none. */
  lemma FirstFamilyExactly(env: Env, now: nat)
    ensures var other := env.primary.Alternate();
            FirstFamily(env, now) != env.primary <==>
            || AlternateDue(env, now)
            || (env.Of(env.primary).penaltyUntil > now && env.Of(other).penaltyUntil <= now)
            || (!env.routes.Has(env.primary) && env.routes.Has(other))
  {
    DueExactly(env, env.primary.Alternate(), now);
  }

  /** A routed primary without a penalty comes first unless a probe is due. */
  lemma HealthyPrimaryFirst(env: Env, now: nat)
    requires env.routes.Has(env.primary) && env.Of(env.primary).penaltyUntil <= now && !AlternateDue(env, now)
    ensures FirstFamily(env, now) == env.primary
  {
    FirstFamilyExactly(env, now);
  }

  lemma RoutesStep(env: Env, event: Event)
    ensures Step(env, event).routes == if event.RoutesSeen? then event.routes else env.routes
  {
  }

  /** The strong failure after `failures` others penalizes its family. */
  predicate Strikes(event: Event, family: AddressFamily, failures: nat) {
    IsStrong(event, family) && failures + 1 >= 2
  }

  lemma PenaltyStep(env: Env, event: Event, family: AddressFamily)
    ensures Step(env, event).Of(family).penaltyUntil ==
            if IsSuccess(event, family) || IsReachable(event, family) then 0
            else if Strikes(event, family, env.Of(family).hardFailures)
            then Max(env.Of(family).penaltyUntil, SatAdd64(event.now, event.penalty))
            else env.Of(family).penaltyUntil
  {
  }

  lemma ProbeStep(env: Env, event: Event, family: AddressFamily)
    ensures var next := Step(env, event);
            next.Of(family).nextProbe ==
            if event.RoutesSeen? && ReturnsTo(env, family) && !env.routes.Has(family) && next.routes.Has(family)
               && next.primary != family then event.now
            else if IsSuccess(event, family) && env.primary != family then
              if next.primary == family then 0 else event.now
            else if Strikes(event, family, env.Of(family).hardFailures)
            then Max(env.Of(family).nextProbe, SatAdd64(event.now, event.penalty))
            else if event.Planned? && env.primary != family && AlternateDue(env, event.now)
            then SatAdd64(event.now, event.retry)
            else env.Of(family).nextProbe
  {
    PreferredExactly(env, family);
    DueExactly(env, env.primary.Alternate(), if event.Planned? then event.now else 0);
  }

  /** A success is remembered with its time and moves the latency average; nothing else touches either. */
  lemma MemoryStep(env: Env, event: Event, family: AddressFamily)
    ensures var was, now := env.Of(family), Step(env, event).Of(family);
            if IsSuccess(event, family)
            then now.lastSuccess == Max(event.now, 1)
                 && now.latency == Average(was, event.latency, event.now, event.memory)
            else now.lastSuccess == was.lastSuccess && now.latency == was.latency
  {
  }

  /** With no success in memory the average is the sample alone, at least one microsecond, cut off at 64 bits. */
  lemma AverageStartsAfresh(health: Health, latency: nat, now: nat, memory: nat)
    requires health.lastSuccess == 0 || now > health.lastSuccess + memory || health.latency == 0
    ensures Average(health, latency, now, memory) == if latency == 0 then 1 else Min(latency, U64_MAX)
  {
  }

  /** If some family is routed and not penalized, a plan starts from such a family. */
  lemma FirstFamilyHealthy(env: Env, now: nat, family: AddressFamily)
    requires env.routes.Has(family) && !env.Penalized(family, now)
    ensures env.routes.Has(FirstFamily(env, now)) && !env.Penalized(FirstFamily(env, now), now)
  {
    assert family == env.primary || family == env.primary.Alternate();
  }

  /** A remembered average moves an eighth of the way to the sample, cut off at 64 bits.  It never exceeds
      both, and falls below both exactly when the cut-off sum does. */
  lemma AverageMovesAnEighth(health: Health, latency: nat, now: nat, memory: nat)
    requires health.lastSuccess != 0 && SatSub(now, health.lastSuccess) <= memory && 1 <= health.latency
    ensures var sample, average := Max(Min(latency, U64_MAX), 1), Average(health, latency, now, memory);
            && 8 * average <= Min(7 * health.latency + sample, U64_MAX) < 8 * average + 8
            && average <= Max(health.latency, sample)
            && (average < Min(health.latency, sample) <==>
                7 * health.latency + sample > U64_MAX && U64_MAX / 8 < Min(health.latency, sample))
  {
    var sample := Max(Min(latency, U64_MAX), 1);
    var sum := Min(7 * health.latency + sample, U64_MAX);
    assert SatAdd64(SatMul64(health.latency, 7), sample) == sum;
    assert sum == 8 * (sum / 8) + sum % 8;
  }

  // ---- Histories ----

  /** `envs` are the states of a fresh environment between the operations in `events`. */
  ghost predicate History(events: seq<Event>, envs: seq<Env>, system: AddressFamily) {
    && |envs| == |events| + 1
    && envs[0] == Start(envs[0].mode, envs[0].routes, system)
    && forall i :: 0 <= i < |events| ==> Follows(events, envs, i)
  }

  ghost predicate Follows(events: seq<Event>, envs: seq<Env>, i: nat)
    requires i < |events| && i + 1 < |envs|
  {
    envs[i + 1] == Step(envs[i], events[i])
  }

  lemma StepKeepsMode(env: Env, event: Event)
    ensures Step(env, event).mode == env.mode && Step(env, event).initial == env.initial
  {
  }

  /** One step never leads to a forbidden family, and a switch always to a routed one. */
  lemma StepKeepsAllowed(env: Env, event: Event)
    requires env.mode.Allows(env.initial) && env.mode.Allows(env.primary)
    ensures env.mode.Allows(Step(env, event).primary)
    ensures Step(env, event).primary != env.primary ==> Step(env, event).Usable(Step(env, event).primary)
  {
  }

  /** Over every history: the primary is allowed, and every switch lands on an allowed and routed family. */
  lemma {:induction false} PrimaryAlwaysAllowed(events: seq<Event>, envs: seq<Env>, system: AddressFamily, n: nat)
    requires History(events, envs, system) && n <= |events|
    ensures envs[n].mode == envs[0].mode && envs[n].initial == envs[0].initial
    ensures envs[n].mode.Allows(envs[n].initial) && envs[n].mode.Allows(envs[n].primary)
    ensures n > 0 && envs[n].primary != envs[n - 1].primary ==> envs[n].Usable(envs[n].primary)
  {
    if n > 0 {
      PrimaryAlwaysAllowed(events, envs, system, n - 1);
      assert Follows(events, envs, n - 1);
      StepKeepsMode(envs[n - 1], events[n - 1]);
      StepKeepsAllowed(envs[n - 1], events[n - 1]);
    } else {
      InitialPrimaryUsable(envs[0].mode, envs[0].routes, system, system);
    }
  }

  // ---- What the counters count ----

  predicate IsSuccess(event: Event, family: AddressFamily) {
    event.Succeeded? && event.family == family
  }

  predicate IsStrong(event: Event, family: AddressFamily) {
    event.Failed? && event.family == family && Classify(event.errno) == StrongFamily
  }

  predicate IsReachable(event: Event, family: AddressFamily) {
    event.Failed? && event.family == family && Classify(event.errno) == ReachableEndpoint
  }

  /** Strong failures of the family among the first n operations since it last succeeded or was reached. */
  function StrongRun(events: seq<Event>, family: AddressFamily, n: nat): nat
    requires n <= |events|
  {
    if n == 0 then 0
    else if IsSuccess(events[n - 1], family) || IsReachable(events[n - 1], family) then 0
    else StrongRun(events, family, n - 1) + if IsStrong(events[n - 1], family) then 1 else 0
  }

  /** Losses of the family while primary since it last succeeded or was replaced for losing. */
  function LossRun(events: seq<Event>, envs: seq<Env>, family: AddressFamily, n: nat): nat
    requires n <= |events| < |envs|
  {
    if n == 0 then 0
    else if IsSuccess(events[n - 1], family) then 0
    else if !events[n - 1].AlternateWon? then LossRun(events, envs, family, n - 1)
    else if envs[n - 1].primary == family != envs[n].primary then 0
    else
      LossRun(events, envs, family, n - 1) +
      if events[n - 1].loser == family == envs[n - 1].primary && events[n - 1].winner != family then 1 else 0
  }

  /** Successes of the family while not primary, since it last succeeded as primary or became primary
      by recovering or by losing its rival's route. */
  function RecoveryRun(events: seq<Event>, envs: seq<Env>, family: AddressFamily, n: nat): nat
    requires n <= |events| < |envs|
  {
    if n == 0 then 0
    else if IsSuccess(events[n - 1], family) then
      if envs[n - 1].primary == family || envs[n].primary == family then 0
      else RecoveryRun(events, envs, family, n - 1) + 1
    else if events[n - 1].RoutesSeen? && envs[n - 1].primary != family == envs[n].primary then 0
    else RecoveryRun(events, envs, family, n - 1)
  }

  lemma StrongStep(env: Env, event: Event, family: AddressFamily)
    ensures Step(env, event).Of(family).hardFailures ==
            if IsSuccess(event, family) || IsReachable(event, family) then 0
            else if IsStrong(event, family) then SatInc8(env.Of(family).hardFailures)
            else env.Of(family).hardFailures
  {
  }

  lemma LossStep(env: Env, event: Event, family: AddressFamily)
    ensures Step(env, event).Of(family).weakLosses ==
            if IsSuccess(event, family) then 0
            else if !event.AlternateWon? then env.Of(family).weakLosses
            else if env.primary == family != Step(env, event).primary then 0
            else if event.loser == family == env.primary && event.winner != family
            then SatInc8(env.Of(family).weakLosses)
            else env.Of(family).weakLosses
  {
  }

  lemma RecoveryStep(env: Env, event: Event, family: AddressFamily)
    ensures Step(env, event).Of(family).recoveries ==
            if IsSuccess(event, family) then
              if env.primary == family || Step(env, event).primary == family then 0
              else SatInc8(env.Of(family).recoveries)
            else if event.RoutesSeen? && env.primary != family == Step(env, event).primary then 0
            else env.Of(family).recoveries
  {
  }

  /** After any history the three 8-bit counters are the runs above, stuck at 255. */
  lemma {:induction false} CountersAreRuns(events: seq<Event>, envs: seq<Env>, system: AddressFamily,
                                           family: AddressFamily, n: nat)
    requires History(events, envs, system) && n <= |events|
    ensures envs[n].Of(family).hardFailures == Min(StrongRun(events, family, n), 255)
    ensures envs[n].Of(family).weakLosses == Min(LossRun(events, envs, family, n), 255)
    ensures envs[n].Of(family).recoveries == Min(RecoveryRun(events, envs, family, n), 255)
  {
    if n == 0 {
    } else {
      CountersAreRuns(events, envs, system, family, n - 1);
      assert Follows(events, envs, n - 1);
      StrongStep(envs[n - 1], events[n - 1], family);
      LossStep(envs[n - 1], events[n - 1], family);
      RecoveryStep(envs[n - 1], events[n - 1], family);
    }
  }

  // ---- Exactly when the primary changes ----

  /** The operation calls for a change of primary, given the runs of strong failures and of losses
      of the primary and the recovery run of its alternate before it. */
  ghost predicate Warrants(env: Env, event: Event, strong: nat, losses: nat, recoveries: nat) {
    var other := env.primary.Alternate();
    match event
    case RoutesSeen(routes, _) => env.mode.Allows(other) && !routes.Has(env.primary) && routes.Has(other)
    case Succeeded(family, _, _, _) =>
      && family == other && ReturnsTo(env, other) && env.routes.Has(other)
      && recoveries + 1 >= 2
    case Failed(_, _, _, _) =>
      Strikes(event, env.primary, strong) && env.Usable(other)
    case AlternateWon(winner, loser) =>
      winner == other && loser == env.primary && env.Usable(other) && losses + 1 >= 3
    case Planned(_, _) => false
  }

  lemma StepSwitches(env: Env, event: Event, strong: nat, losses: nat, recoveries: nat)
    requires env.Of(env.primary).hardFailures == Min(strong, U8_MAX)
    requires env.Of(env.primary).weakLosses == Min(losses, U8_MAX)
    requires env.Of(env.primary.Alternate()).recoveries == Min(recoveries, U8_MAX)
    ensures Step(env, event).primary != env.primary <==> Warrants(env, event, strong, losses, recoveries)
  {
  }

  /** The history up to operation i calls for a change of primary. */
  ghost predicate Warranted(events: seq<Event>, envs: seq<Env>, i: nat)
    requires i < |events| < |envs|
  {
    var primary := envs[i].primary;
    Warrants(envs[i], events[i], StrongRun(events, primary, i), LossRun(events, envs, primary, i),
             RecoveryRun(events, envs, primary.Alternate(), i))
  }

  /**
   The primary changes at an operation exactly when the history warrants it: the primary lost its
   route, the preferred family succeeded twice, or the primary collected two strong failures or
   three weak losses that nothing cleared.
   */
  lemma SwitchesExactlyWhenWarranted(events: seq<Event>, envs: seq<Env>, system: AddressFamily, i: nat)
    requires History(events, envs, system) && i < |events|
    ensures envs[i + 1].primary != envs[i].primary <==> Warranted(events, envs, i)
  {
    assert Follows(events, envs, i);
    var primary := envs[i].primary;
    CountersAreRuns(events, envs, system, primary, i);
    CountersAreRuns(events, envs, system, primary.Alternate(), i);
    StepSwitches(envs[i], events[i], StrongRun(events, primary, i), LossRun(events, envs, primary, i),
                 RecoveryRun(events, envs, primary.Alternate(), i));
  }

  // ---- Penalties ----

  /** Operation i is the strong failure that penalizes the family. */
  ghost predicate Penalizes(events: seq<Event>, family: AddressFamily, i: nat)
    requires i < |events|
  {
    Strikes(events[i], family, StrongRun(events, family, i))
  }

  /** The latest end of the penalties since the family last succeeded or was reached. */
  ghost function PenaltyRun(events: seq<Event>, family: AddressFamily, n: nat): nat
    requires n <= |events|
  {
    if n == 0 || IsSuccess(events[n - 1], family) || IsReachable(events[n - 1], family) then 0
    else if Penalizes(events, family, n - 1)
    then Max(PenaltyRun(events, family, n - 1), SatAdd64(events[n - 1].now, events[n - 1].penalty))
    else PenaltyRun(events, family, n - 1)
  }

  /** When a probe of the family is due, going by the last operation that set or put off that time. */
  ghost function ProbeRun(events: seq<Event>, envs: seq<Env>, family: AddressFamily, n: nat): nat
    requires n <= |events| < |envs|
  {
    if n == 0 then 0
    else
      var e, was, now := events[n - 1], envs[n - 1], envs[n];
      if e.RoutesSeen? && ReturnsTo(was, family) && !was.routes.Has(family) && now.routes.Has(family) &&
         now.primary != family then e.now
      else if IsSuccess(e, family) && was.primary != family then if now.primary == family then 0 else e.now
      else if Penalizes(events, family, n - 1)
      then Max(ProbeRun(events, envs, family, n - 1), SatAdd64(e.now, e.penalty))
      else if e.Planned? && was.primary != family && AlternateDue(was, e.now) then SatAdd64(e.now, e.retry)
      else ProbeRun(events, envs, family, n - 1)
  }

  /** Over every history the penalty and the probe time are exactly those. */
  lemma {:induction false} TimesAreRuns(events: seq<Event>, envs: seq<Env>, system: AddressFamily,
                                        family: AddressFamily, n: nat)
    requires History(events, envs, system) && n <= |events|
    ensures envs[n].Of(family).penaltyUntil == PenaltyRun(events, family, n)
    ensures envs[n].Of(family).nextProbe == ProbeRun(events, envs, family, n)
  {
    if n == 0 {
    } else {
      TimesAreRuns(events, envs, system, family, n - 1);
      CountersAreRuns(events, envs, system, family, n - 1);
      assert Follows(events, envs, n - 1);
      PenaltyStep(envs[n - 1], events[n - 1], family);
      ProbeStep(envs[n - 1], events[n - 1], family);
    }
  }

  /** A penalty stands until the family succeeds or is reached: it never gets shorter. */
  lemma {:induction false} PenaltyStands(events: seq<Event>, envs: seq<Env>, system: AddressFamily,
                                         family: AddressFamily, i: nat, n: nat)
    requires History(events, envs, system) && i < n <= |events| && Penalizes(events, family, i)
    requires forall k :: i < k < n ==> !IsSuccess(events[k], family) && !IsReachable(events[k], family)
    ensures envs[n].Of(family).penaltyUntil >= SatAdd64(events[i].now, events[i].penalty)
    decreases n
  {
    assert Follows(events, envs, n - 1);
    if n == i + 1 {
      CountersAreRuns(events, envs, system, family, i);
      PenaltySet(envs[i], events[i], family);
    } else {
      PenaltyStands(events, envs, system, family, i, n - 1);
      PenaltyKept(envs[n - 1], events[n - 1], family);
    }
  }

  lemma PenaltyKept(env: Env, event: Event, family: AddressFamily)
    requires !IsSuccess(event, family) && !IsReachable(event, family)
    ensures Step(env, event).Of(family).penaltyUntil >= env.Of(family).penaltyUntil
  {
  }

  lemma PenaltySet(env: Env, event: Event, family: AddressFamily)
    requires IsStrong(event, family) && env.Of(family).hardFailures + 1 >= HARD_FAILURE_THRESHOLD
    ensures Step(env, event).Of(family).penaltyUntil >= SatAdd64(event.now, event.penalty)
  {
  }

  /** No recovery probe of a penalized family is claimed before the penalty has run out. */
  lemma NoProbeDuringPenalty(events: seq<Event>, envs: seq<Env>, system: AddressFamily,
                             family: AddressFamily, i: nat, n: nat)
    requires History(events, envs, system) && i < n < |events| && Penalizes(events, family, i)
    requires forall k :: i < k < n ==> !IsSuccess(events[k], family) && !IsReachable(events[k], family)
    requires events[n].Planned? && envs[n].ProbeDue(family, events[n].now)
    ensures events[n].now >= SatAdd64(events[i].now, events[i].penalty)
  {
    PenaltyStands(events, envs, system, family, i, n);
  }

  // ---- The object ----

  class NetworkEnvironment {
    const mode: DialPolicy
    const initial: AddressFamily
    var routes: Routes
    var primary: AddressFamily
    var ipv4: Health
    var ipv6: Health

    ghost function View(): Env
      reads this
    {
      Env(mode, initial, routes, primary, ipv4, ipv6)
    }

    constructor (mode: DialPolicy, detected: Routes, system: AddressFamily)
      ensures View() == Start(mode, detected, system)
    {
      this.mode, initial, routes := mode, InitialPrimary(mode, detected, system), detected;
      primary := InitialPrimary(mode, detected, system);
      ipv4, ipv6 := FRESH, FRESH;
    }

    function Of(family: AddressFamily): Health
      reads this
    {
      if family == Ipv4 then ipv4 else ipv6
    }

    method Put(family: AddressFamily, health: Health)
      modifies `ipv4, `ipv6
      ensures View() == old(View()).With(family, health)
    {
      if family == Ipv4 {
        ipv4 := health;
      } else {
        ipv6 := health;
      }
    }

    function PreferredRecovery(): AddressFamily {
      if mode == PreferIpv4 || mode == Ipv4Only then AddressFamily.Ipv4
      else if mode == PreferIpv6 || mode == Ipv6Only then AddressFamily.Ipv6
      else initial
    }

    method UpdateRoutes(seen: Routes, now: nat)
      modifies this
      ensures View() == Step(old(View()), RoutesSeen(seen, now))
    {
      var previous := routes;
      routes := seen;
      var other := primary.Alternate();
      if !routes.Has(primary) && routes.Has(other) && mode.Allows(other) {
        primary := other;
        Put(other, Of(other).(recoveries := 0));
      }
      var preferred := PreferredRecovery();
      if !previous.Has(preferred) && seen.Has(preferred) && primary != preferred {
        Put(preferred, Of(preferred).(nextProbe := now));
      }
    }

    method RecordSuccess(family: AddressFamily, latency: nat, now: nat, memory: nat)
      modifies this
      ensures View() == Step(old(View()), Succeeded(family, latency, now, memory))
    {
      var health := Of(family);
      var sample := Max(Min(latency, U64_MAX), 1);
      var previous := 0;
      if health.lastSuccess != 0 && SatSub(now, health.lastSuccess) <= memory {
        previous := health.latency;
      }
      var next := sample;
      if previous != 0 {
        next := SatAdd64(SatMul64(previous, 7), sample) / 8;
      }
      health := health.(latency := Max(next, 1));
      health := health.(lastSuccess := Max(now, 1), hardFailures := 0, weakLosses := 0, penaltyUntil := 0);
      if family == primary {
        Put(family, health.(recoveries := 0));
        return;
      }
      health := health.(recoveries := SatInc8(health.recoveries));
      if health.recoveries >= RECOVERY_SUCCESS_THRESHOLD && PreferredRecovery() == family && routes.Has(family) {
        primary := family;
        Put(family, health.(recoveries := 0, nextProbe := 0));
      } else {
        Put(family, health.(nextProbe := now));
      }
    }

    method PenalizeAndFailOver(family: AddressFamily, penalty: nat, now: nat)
      modifies this
      ensures View() == FailedOver(old(View()), family, penalty, now)
    {
      var health := Of(family);
      health := health.(penaltyUntil := Max(health.penaltyUntil, SatAdd64(now, penalty)));
      Put(family, health.(nextProbe := Max(health.nextProbe, SatAdd64(now, penalty))));
      var other := family.Alternate();
      if primary == family && mode.Allows(other) && routes.Has(other) {
        primary := other;
      }
    }

    method RecordConnectError(family: AddressFamily, errno: nat, penalty: nat, now: nat)
      modifies this
      ensures View() == Step(old(View()), Failed(family, errno, penalty, now))
    {
      match Classify(errno) {
        case ReachableEndpoint =>
          Put(family, Of(family).(hardFailures := 0, penaltyUntil := 0));
        case DestinationOnly =>
        case StrongFamily =>
          var failures := SatInc8(Of(family).hardFailures);
          Put(family, Of(family).(hardFailures := failures));
          if failures >= HARD_FAILURE_THRESHOLD {
            PenalizeAndFailOver(family, penalty, now);
          }
      }
    }

    method RecordAlternateSuccess(winner: AddressFamily, loser: AddressFamily)
      modifies this
      ensures View() == Step(old(View()), AlternateWon(winner, loser))
    {
      if winner == loser || primary != loser {
        return;
      }
      var losses := SatInc8(Of(loser).weakLosses);
      Put(loser, Of(loser).(weakLosses := losses));
      if losses >= WEAK_LOSS_THRESHOLD && routes.Has(winner) && mode.Allows(winner) {
        primary := winner;
        Put(loser, Of(loser).(weakLosses := 0));
      }
    }

    method ClaimRecoveryProbe(family: AddressFamily, now: nat, retry: nat) returns (claimed: bool)
      modifies `ipv4, `ipv6
      ensures claimed <==> old(View()).ProbeDue(family, now)
      ensures claimed ==> View() == old(View()).With(family, old(Of(family)).(nextProbe := SatAdd64(now, retry)))
      ensures !claimed ==> View() == old(View())
    {
      if family == primary || family != PreferredRecovery() || !routes.Has(family) ||
         Of(family).penaltyUntil > now
      {
        return false;
      }
      var due := Of(family).nextProbe;
      if due == 0 || now < due {
        return false;
      }
      Put(family, Of(family).(nextProbe := SatAdd64(now, retry)));
      claimed := true;
    }

    method PreferredFamilyAt(now: nat, retry: nat) returns (family: AddressFamily)
      modifies `ipv4, `ipv6
      ensures family == FirstFamily(old(View()), now)
      ensures View() == Step(old(View()), Planned(now, retry))
    {
      var other := primary.Alternate();
      var claimed := ClaimRecoveryProbe(other, now, retry);
      if claimed {
        return other;
      }
      var primaryHealthy := Of(primary).penaltyUntil <= now;
      var otherHealthy := Of(other).penaltyUntil <= now;
      if (!primaryHealthy && otherHealthy) || (!routes.Has(primary) && routes.Has(other)) {
        return other;
      }
      family := primary;
    }
  }
}

/**
 The race for a recovery probe: several planners read the due time and then try to move it with one
 compare-and-exchange, while other operations overwrite or raise it (src/network.rs:450-481).
 */
module ProbeClaims {
  import opened Words
  import opened AddressFamilies
  import Health = FamilyHealth

  datatype Planner = Idle | Loaded(due: nat, now: nat, retry: nat)

  /** `epoch` counts the overwriting stores. */
  datatype Claim = Claim(due: nat, now: nat, retry: nat, epoch: nat)

  datatype Cell = Cell(due: nat, planners: seq<Planner>, epoch: nat, claims: seq<Claim>)

  datatype Action =
    | Load(planner: nat, now: nat, retry: nat)
    | Exchange(planner: nat)
    | Store(due: nat)
    | Raise(due: nat)

  function Step(c: Cell, a: Action): Cell {
    match a
    case Load(p, now, retry) =>
      if p < |c.planners| && c.planners[p].Idle? && 0 != c.due <= now
      then c.(planners := c.planners[p := Loaded(c.due, now, retry)])
      else c
    case Exchange(p) =>
      if p < |c.planners| && c.planners[p].Loaded? then
        var mine := c.planners[p];
        var done := c.(planners := c.planners[p := Idle]);
        if c.due == mine.due
        then done.(due := SatAdd64(mine.now, mine.retry),
                   claims := c.claims + [Claim(mine.due, mine.now, mine.retry, c.epoch)])
        else done
      else c
    case Store(due) => c.(due := due, epoch := c.epoch + 1)
    case Raise(due) => c.(due := Max(c.due, due))
  }

  function Run(c: Cell, actions: seq<Action>): Cell
    decreases |actions|
  {
    if actions == [] then c else Run(Step(c, actions[0]), actions[1..])
  }

  function Start(planners: nat): Cell {
    Cell(0, seq(planners, _ => Idle), 0, [])
  }

  lemma RunTwo(c: Cell, a: Action, b: Action)
    ensures Run(c, [a, b]) == Step(Step(c, a), b)
  {
    assert [a, b][1..] == [b] && [b][1..] == [];
    assert Run(Step(c, a), [b]) == Step(Step(c, a), b);
  }

  /** A planner alone claims exactly a due time that is set and has come, and moves it by the interval. */
  lemma SoloClaim(c: Cell, planner: nat, now: nat, retry: nat)
    requires planner < |c.planners| && c.planners[planner] == Idle
    ensures Run(c, [Load(planner, now, retry), Exchange(planner)]) ==
            if 0 < c.due <= now
            then c.(due := SatAdd64(now, retry), claims := c.claims + [Claim(c.due, now, retry, c.epoch)])
            else c
  {
    RunTwo(c, Load(planner, now, retry), Exchange(planner));
    if 0 < c.due <= now {
      assert c.planners[planner := Loaded(c.due, now, retry)][planner := Idle] == c.planners;
    }
  }

  // ---- The cell is the probe time of a family ----

  /** What an operation does to the probe time of a family. */
  function CellActions(env: Health.Env, event: Health.Event, family: AddressFamily): seq<Action> {
    var next := Health.Step(env, event);
    match event
    case RoutesSeen(_, now) =>
      if Health.ReturnsTo(env, family) && !env.routes.Has(family) && next.routes.Has(family) && next.primary != family
      then [Store(now)] else []
    case Succeeded(who, _, now, _) =>
      if who == family && env.primary != family then [Store(if next.primary == family then 0 else now)] else []
    case Failed(_, _, penalty, now) =>
      if Health.Strikes(event, family, env.Of(family).hardFailures) then [Raise(SatAdd64(now, penalty))] else []
    case AlternateWon(_, _) => []
    case Planned(now, retry) =>
      if CanProbe(env, family, now) then [Load(0, now, retry), Exchange(0)] else []
  }

  /** A planner looks at the probe time of this family. */
  predicate CanProbe(env: Health.Env, family: AddressFamily, now: nat) {
    && family == env.primary.Alternate() && Health.ReturnsTo(env, family) && env.routes.Has(family)
    && env.Of(family).penaltyUntil <= now
  }

  /** The cell shows the probe time, and its planner is at rest. */
  ghost predicate Shows(c: Cell, env: Health.Env, family: AddressFamily) {
    c.due == env.Of(family).nextProbe && c.planners == [Idle]
  }

  predicate Claims(env: Health.Env, event: Health.Event, family: AddressFamily) {
    event.Planned? && env.ProbeDue(family, event.now)
  }

  lemma RunOne(c: Cell, a: Action)
    ensures Run(c, [a]) == Step(c, a)
  {
    assert [a][1..] == [];
  }

  /** Every operation moves the cell as it moves the probe time, and claims when the plan does. */
  lemma OperationInCell(c: Cell, env: Health.Env, event: Health.Event, family: AddressFamily)
    requires Shows(c, env, family)
    ensures var after := Run(c, CellActions(env, event, family));
            && Shows(after, Health.Step(env, event), family)
            && |after.claims| == |c.claims| + if Claims(env, event, family) then 1 else 0
  {
    Health.ProbeStep(env, event, family);
    var actions := CellActions(env, event, family);
    if event.Planned? {
      Health.DueExactly(env, family, event.now);
      SoloClaim(c, 0, event.now, event.retry);
    } else if actions != [] {
      RunOne(c, actions[0]);
      assert actions == [actions[0]];
    }
  }

  function ClaimCount(events: seq<Health.Event>, envs: seq<Health.Env>, family: AddressFamily, n: nat): nat
    requires n <= |events| < |envs|
  {
    if n == 0 then 0
    else ClaimCount(events, envs, family, n - 1) + if Claims(envs[n - 1], events[n - 1], family) then 1 else 0
  }

  lemma {:induction false} RunConcat(c: Cell, xs: seq<Action>, ys: seq<Action>)
    ensures Run(c, xs + ys) == Run(Run(c, xs), ys)
    decreases |xs|
  {
    if xs == [] {
      assert xs + ys == ys;
    } else {
      assert (xs + ys)[1..] == xs[1..] + ys;
      RunConcat(Step(c, xs[0]), xs[1..], ys);
    }
  }

  /** Every history of the family health is a run of the cell: the same due time and as many claims, so what
      holds of the cell's claims holds of the probes. */
  lemma {:induction false} HistoryInCell(events: seq<Health.Event>, envs: seq<Health.Env>, system: AddressFamily,
                                         family: AddressFamily, n: nat) returns (actions: seq<Action>)
    requires Health.History(events, envs, system) && n <= |events|
    ensures Shows(Run(Start(1), actions), envs[n], family)
    ensures |Run(Start(1), actions).claims| == ClaimCount(events, envs, family, n)
  {
    if n == 0 {
      actions := [];
    } else {
      var before := HistoryInCell(events, envs, system, family, n - 1);
      var last := CellActions(envs[n - 1], events[n - 1], family);
      assert Health.Follows(events, envs, n - 1);
      OperationInCell(Run(Start(1), before), envs[n - 1], events[n - 1], family);
      RunConcat(Start(1), before, last);
      actions := before + last;
    }
  }

  /** The time before which nobody else may claim. */
  function Until(claim: Claim): nat { SatAdd64(claim.now, claim.retry) }

  predicate Spaced(earlier: Claim, later: Claim) {
    earlier.epoch == later.epoch ==> Until(earlier) <= later.due <= later.now
  }

  ghost predicate Consistent(c: Cell) {
    && (forall p :: 0 <= p < |c.planners| && c.planners[p].Loaded? ==> 0 != c.planners[p].due <= c.planners[p].now)
    && (forall i :: 0 <= i < |c.claims| ==> c.claims[i].epoch <= c.epoch)
    && (forall i :: 0 <= i < |c.claims| && c.claims[i].epoch == c.epoch ==> Until(c.claims[i]) <= c.due)
    && (forall i, j :: 0 <= i < j < |c.claims| ==> Spaced(c.claims[i], c.claims[j]))
  }

  lemma StepKeepsConsistent(c: Cell, a: Action)
    requires Consistent(c)
    ensures Consistent(Step(c, a))
  {
    if a.Exchange? && a.planner < |c.planners| && c.planners[a.planner].Loaded? &&
       c.due == c.planners[a.planner].due
    {
      var mine := c.planners[a.planner];
      var claim := Claim(mine.due, mine.now, mine.retry, c.epoch);
      assert forall i :: 0 <= i < |c.claims| ==> Spaced(c.claims[i], claim);
      assert Until(claim) >= c.due || Until(claim) == U64_MAX;
    }
  }

  lemma {:induction false} RunKeepsConsistent(c: Cell, actions: seq<Action>)
    requires Consistent(c)
    ensures Consistent(Run(c, actions))
    decreases |actions|
  {
    if actions == [] {
    } else {
      StepKeepsConsistent(c, actions[0]);
      RunKeepsConsistent(Step(c, actions[0]), actions[1..]);
    }
  }

  /** In every interleaving, claims not separated by a store are at least the retry interval apart. */
  lemma ClaimsAreSpaced(planners: nat, actions: seq<Action>, i: nat, j: nat)
    requires i < j < |Run(Start(planners), actions).claims|
    ensures var claims := Run(Start(planners), actions).claims;
            claims[i].epoch == claims[j].epoch ==> claims[j].now >= SatAdd64(claims[i].now, claims[i].retry)
  {
    RunKeepsConsistent(Start(planners), actions);
    var claims := Run(Start(planners), actions).claims;
    assert Spaced(claims[i], claims[j]);
  }

  /** A claim that leaves its own due time in place: no interval, or a clock at its maximum. */
  predicate Repeatable(due: nat, now: nat, retry: nat) { SatAdd64(now, retry) <= due }

  /** One due time has one winner until a store intervenes, unless the winner's claim is repeatable. */
  lemma OneWinnerPerDueTime(planners: nat, actions: seq<Action>, i: nat, j: nat)
    requires i < j < |Run(Start(planners), actions).claims|
    ensures var claims := Run(Start(planners), actions).claims;
            claims[i].epoch == claims[j].epoch && claims[i].due == claims[j].due ==>
              Repeatable(claims[i].due, claims[i].now, claims[i].retry)
  {
    RunKeepsConsistent(Start(planners), actions);
    var claims := Run(Start(planners), actions).claims;
    assert Spaced(claims[i], claims[j]);
  }

  lemma RepeatableExactly(due: nat, now: nat, retry: nat)
    requires due <= now <= U64_MAX
    ensures Repeatable(due, now, retry) <==> due == now && (retry == 0 || now == U64_MAX)
  {
  }

  /** Every repeatable claim is in fact won twice by some run. */
  lemma RepeatedClaimHappens(due: nat, now: nat, retry: nat)
    requires 0 < due <= now <= U64_MAX && Repeatable(due, now, retry)
    ensures var actions := [Store(due), Load(0, now, retry), Exchange(0), Load(1, now, retry), Exchange(1)];
            Run(Start(2), actions).claims == [Claim(due, now, retry, 1), Claim(due, now, retry, 1)]
  {
    var load0, load1 := Load(0, now, retry), Load(1, now, retry);
    var stored := Step(Start(2), Store(due));
    var first := Step(Step(stored, load0), Exchange(0));
    assert first.planners[1] == Idle && first.claims == [Claim(due, now, retry, 1)];
    var second := Step(Step(first, load1), Exchange(1));
    assert second.claims == [Claim(due, now, retry, 1), Claim(due, now, retry, 1)];
    RunFive(Start(2), Store(due), load0, Exchange(0), load1, Exchange(1));
  }

  lemma RunFive(c: Cell, a0: Action, a1: Action, a2: Action, a3: Action, a4: Action)
    ensures Run(c, [a0, a1, a2, a3, a4]) == Step(Step(Step(Step(Step(c, a0), a1), a2), a3), a4)
  {
    var c1 := Step(c, a0);
    var c2 := Step(c1, a1);
    calc {
      Run(c, [a0, a1, a2, a3, a4]);
    ==  { assert [a0, a1, a2, a3, a4][1..] == [a1, a2, a3, a4]; }
      Run(c1, [a1, a2, a3, a4]);
    ==  { assert [a1, a2, a3, a4][1..] == [a2, a3, a4]; }
      Run(c2, [a2, a3, a4]);
    ==  { assert [a2, a3, a4][1..] == [a3, a4]; }
      Run(Step(c2, a2), [a3, a4]);
    ==  { assert [a3, a4][1..] == [a4]; }
      Run(Step(Step(c2, a2), a3), [a4]);
    ==  { assert [a4][1..] == []; }
      Step(Step(Step(c2, a2), a3), a4);
    }
  }
}
