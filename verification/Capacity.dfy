/**
 Aggregation of provider capacity budgets (scripts/operations/check_capacity.py).  Floating point
 amounts are modelled as reals.
 */
module Capacity {

  const EPSILON: real := 0.000000001
  const HALF_UNIT: real := 0.0000005
  const REQUIRED_PROVIDERS: set<string> := {"infrastructure", "database", "runtime", "operations"}

  datatype Resources = Resources(ocpu: real, memory: int, disk: real)

  datatype Component = Component(
    name: string, isPooler: bool, enabled: bool, steady: Resources, hard: Resources, connections: int)

  /** A provider's budget; `schemaErrors` counts what schema validation reports about it. */
  datatype Budget = Budget(provider: string, schemaErrors: nat, components: seq<Component>)

  datatype Envelope = Envelope(
    host: Resources, reserved: Resources, steadyLimit: Resources, hardLimit: Resources, connectionLimit: int)

  datatype Contract = Contract(
    maximum: int, runtimeServer: int, operationalPool: int, directAdministrative: int, headroom: int)

  // ----- sums -----

  function Add(a: Resources, b: Resources): Resources {
    Resources(a.ocpu + b.ocpu, a.memory + b.memory, a.disk + b.disk)
  }

  const NOTHING := Resources(0.0, 0, 0.0)

  /** Everything the checks look at.  `faults` counts schema errors and hard limits below steady state. */
  datatype Totals = Totals(
    steady: Resources, hard: Resources, server: int, pooled: int, direct: int, demand: int,
    faults: nat, providers: multiset<string>)

  function Plus(a: Totals, b: Totals): Totals {
    Totals(Add(a.steady, b.steady), Add(a.hard, b.hard), a.server + b.server, a.pooled + b.pooled,
           a.direct + b.direct, a.demand + b.demand, a.faults + b.faults, a.providers + b.providers)
  }

  const ZERO := Totals(NOTHING, NOTHING, 0, 0, 0, 0, 0, multiset{})

  function Count(b: bool): nat { if b then 1 else 0 }

  /** How many of the three resources have a hard limit below the steady state. */
  function BelowSteady(c: Component): nat {
    Count(c.hard.ocpu + EPSILON < c.steady.ocpu)
    + Count(c.hard.memory as real + EPSILON < c.steady.memory as real)
    + Count(c.hard.disk + EPSILON < c.steady.disk)
  }

  function OfComponent(provider: string, c: Component): Totals {
    if !c.enabled then ZERO
    else
      var database := provider == "database";
      Totals(c.steady, c.hard,
             if database then c.connections else 0,
             if database && c.isPooler then c.connections else 0,
             if database && !c.isPooler then c.connections else 0,
             if database then 0 else c.connections,
             BelowSteady(c), multiset{})
  }

  function OfComponents(provider: string, components: seq<Component>): Totals {
    if components == [] then ZERO
    else Plus(OfComponents(provider, components[..|components| - 1]), OfComponent(provider, components[|components| - 1]))
  }

  function OfBudget(b: Budget): Totals {
    Plus(OfComponents(b.provider, b.components), ZERO.(faults := b.schemaErrors, providers := multiset{b.provider}))
  }

  function OfBudgets(budgets: seq<Budget>): Totals {
    if budgets == [] then ZERO
    else Plus(OfBudgets(budgets[..|budgets| - 1]), OfBudget(budgets[|budgets| - 1]))
  }

  lemma PlusLaws(a: Totals, b: Totals, c: Totals)
    ensures Plus(a, b) == Plus(b, a)
    ensures Plus(Plus(a, b), c) == Plus(a, Plus(b, c))
    ensures Plus(a, ZERO) == a == Plus(ZERO, a)
  {
  }

  lemma {:induction false} OfBudgetsAppend(a: seq<Budget>, b: seq<Budget>)
    ensures OfBudgets(a + b) == Plus(OfBudgets(a), OfBudgets(b))
    decreases |b|
  {
    hide Plus;
    if b == [] {
      assert a + b == a;
      PlusLaws(OfBudgets(a), ZERO, ZERO);
    } else {
      var n := |b| - 1;
      OfBudgetsAppend(a, b[..n]);
      assert (a + b)[..|a| + n] == a + b[..n] && (a + b)[|a| + n] == b[n];
      PlusLaws(OfBudgets(a), OfBudgets(b[..n]), OfBudget(b[n]));
    }
  }

  lemma {:induction false} OfComponentsAppend(provider: string, a: seq<Component>, b: seq<Component>)
    ensures OfComponents(provider, a + b) == Plus(OfComponents(provider, a), OfComponents(provider, b))
    decreases |b|
  {
    hide Plus;
    if b == [] {
      assert a + b == a;
      PlusLaws(OfComponents(provider, a), ZERO, ZERO);
    } else {
      var n := |b| - 1;
      OfComponentsAppend(provider, a, b[..n]);
      assert (a + b)[..|a| + n] == a + b[..n] && (a + b)[|a| + n] == b[n];
      PlusLaws(OfComponents(provider, a), OfComponents(provider, b[..n]), OfComponent(provider, b[n]));
    }
  }

  /** What one component adds: nothing if it is disabled, and connections by provider and kind. */
  lemma OneComponent(provider: string, c: Component)
    ensures
      var t := OfComponents(provider, [c]);
      var database := provider == "database";
      && (!c.enabled ==> t == ZERO)
      && (c.enabled ==>
            && t.steady == c.steady && t.hard == c.hard && t.server == t.pooled + t.direct
            && (database && c.isPooler ==> t.pooled == c.connections && t.direct == 0 && t.demand == 0)
            && (database && !c.isPooler ==> t.pooled == 0 && t.direct == c.connections && t.demand == 0)
            && (!database ==> t.pooled == 0 && t.direct == 0 && t.demand == c.connections))
      && (t.faults == 0 <==> HardCoversSteady(c)) && t.providers == multiset{}
  {
    hide Plus;
    assert [c][..0] == [];
    PlusLaws(OfComponent(provider, c), ZERO, ZERO);
  }

  /** No hard limit of an enabled component lies below its steady state. */
  predicate HardCoversSteady(c: Component) {
    c.enabled ==>
      && c.steady.ocpu <= c.hard.ocpu + 0.000000001
      && c.steady.memory <= c.hard.memory
      && c.steady.disk <= c.hard.disk + 0.000000001
  }

  lemma OfBudgetsOne(b: Budget)
    ensures OfBudgets([b]) == OfBudget(b)
  {
    hide Plus;
    assert [b][..0] == [];
    PlusLaws(OfBudget(b), ZERO, ZERO);
  }

  lemma SumTakeOut(s: seq<Budget>, i: nat)
    requires i < |s|
    ensures OfBudgets(s) == Plus(OfBudget(s[i]), OfBudgets(Without(s, i)))
  {
    hide Plus, OfBudgets, OfBudget;
    var front, x, back := s[..i], s[i], s[i + 1..];
    assert s == front + ([x] + back);
    OfBudgetsAppend(front, [x] + back);
    OfBudgetsAppend([x], back);
    OfBudgetsAppend(front, back);
    OfBudgetsOne(x);
    Rotate(OfBudget(x), OfBudgets(front), OfBudgets(back));
  }

  function Without(s: seq<Budget>, i: nat): seq<Budget>
    requires i < |s|
  {
    s[..i] + s[i + 1..]
  }

  lemma BagTakeOut(s: seq<Budget>, i: nat)
    requires i < |s|
    ensures multiset(Without(s, i)) == multiset(s) - multiset{s[i]}
  {
    assert s == s[..i] + [s[i]] + s[i + 1..];
  }

  lemma Rotate(x: Totals, a: Totals, b: Totals)
    ensures Plus(x, Plus(a, b)) == Plus(a, Plus(x, b))
  {
  }

  /** Totals do not depend on the order in which the budget files are given. */
  lemma {:induction false} TotalsIgnoreOrder(a: seq<Budget>, b: seq<Budget>)
    requires multiset(a) == multiset(b)
    ensures OfBudgets(a) == OfBudgets(b)
    decreases |a|
  {
    hide Plus, OfBudgets, OfBudget, Without;
    if a == [] {
      assert |b| == |multiset(b)| == |multiset(a)| == 0;
      assert b == a;
    } else {
      assert a[0] in multiset(b);
      var i :| 0 <= i < |b| && b[i] == a[0];
      BagTakeOut(a, 0);
      BagTakeOut(b, i);
      assert |Without(a, 0)| < |a| by { ShorterWithout(a, 0); }
      TotalsIgnoreOrder(Without(a, 0), Without(b, i));
      SumTakeOut(a, 0);
      SumTakeOut(b, i);
    }
  }

  lemma ShorterWithout(s: seq<Budget>, i: nat)
    requires i < |s|
    ensures |Without(s, i)| < |s|
  {
  }

  /** Pooled and direct connections split the server reservation. */
  lemma {:induction false} ConnectionsSplit(budgets: seq<Budget>)
    ensures OfBudgets(budgets).server == OfBudgets(budgets).pooled + OfBudgets(budgets).direct
  {
    if budgets != [] {
      ConnectionsSplit(budgets[..|budgets| - 1]);
      var last := budgets[|budgets| - 1];
      ComponentsSplit(last.provider, last.components);
    }
  }

  lemma {:induction false} ComponentsSplit(provider: string, components: seq<Component>)
    ensures OfComponents(provider, components).server
         == OfComponents(provider, components).pooled + OfComponents(provider, components).direct
  {
    if components != [] {
      ComponentsSplit(provider, components[..|components| - 1]);
    }
  }

  // ----- the verdict -----

  /** Python's `round(x, 6)`: to the nearest millionth, ties to even. */
  function Rounded(x: real): (r: real)
    ensures x - HALF_UNIT <= r <= x + HALF_UNIT
  {
    var scaled := x * 1000000.0;
    var low := scaled.Floor;
    var excess := scaled - low as real;
    var n := if excess < 0.5 || (excess == 0.5 && low % 2 == 0) then low else low + 1;
    n as real / 1000000.0
  }

  function RoundedResources(r: Resources): Resources {
    Resources(Rounded(r.ocpu), r.memory, Rounded(r.disk))
  }

  /** How many resources of `a` exceed those of `limit`, beyond the tolerance. */
  function Exceeds(a: Resources, limit: Resources): nat {
    Count(a.ocpu > limit.ocpu + EPSILON)
    + Count(a.memory as real > limit.memory as real + EPSILON)
    + Count(a.disk > limit.disk + EPSILON)
  }

  function Available(e: Envelope): Resources {
    Resources(e.host.ocpu - e.reserved.ocpu, e.host.memory - e.reserved.memory, e.host.disk - e.reserved.disk)
  }

  /** The failures that depend on the totals, the envelope and the database contract. */
  function LimitFailures(t: Totals, e: Envelope, c: Contract): nat {
    var pool := c.runtimeServer + c.operationalPool;
    Exceeds(RoundedResources(t.steady), e.steadyLimit)
    + Exceeds(e.hardLimit, Available(e))
    + Exceeds(e.steadyLimit, Available(e))
    + Exceeds(RoundedResources(t.hard), e.hardLimit)
    + Count(t.server > e.connectionLimit)
    + Count(t.demand > t.pooled)
    + Count(pool + c.directAdministrative + c.headroom != c.maximum)
    + Count(t.pooled != pool)
    + Count(t.demand != c.runtimeServer)
    + Count(t.direct != c.directAdministrative)
    + Count(t.server + c.headroom != c.maximum)
    + Count(t.server > c.maximum)
  }

  predicate Passes(t: Totals, e: Envelope, c: Contract) {
    && t.faults == 0
    && (forall p | p in t.providers :: t.providers[p] == 1)
    && (forall p | p in REQUIRED_PROVIDERS :: p in t.providers)
    && LimitFailures(t, e, c) == 0
  }

  /** The aggregation loop of `main`. */
  method Aggregate(budgets: seq<Budget>) returns (t: Totals, failures: nat)
    ensures t == OfBudgets(budgets)
    ensures failures == 0 <==> t.faults == 0 && forall p | p in t.providers :: t.providers[p] == 1
  {
    hide OfComponents;
    t, failures := ZERO, 0;
    var providers: set<string> := {};
    var duplicates := 0;
    for n := 0 to |budgets|
      invariant t == OfBudgets(budgets[..n])
      invariant forall p :: p in providers <==> p in t.providers
      invariant failures == t.faults + duplicates
      invariant duplicates == 0 <==> forall p | p in t.providers :: t.providers[p] == 1
    {
      var b := budgets[n];
      ghost var before := t;
      failures := failures + b.schemaErrors;
      if b.provider in providers {
        failures, duplicates := failures + 1, duplicates + 1;
      }
      providers := providers + {b.provider};
      var sums := SumComponents(b.provider, b.components);
      failures := failures + sums.faults;
      t := Plus(t, Plus(sums, ZERO.(faults := b.schemaErrors, providers := multiset{b.provider})));
      NoProviders(b.provider, b.components);
      assert t.providers == before.providers + multiset{b.provider};
      OneMoreProvider(before.providers, b.provider);
      assert budgets[..n + 1][..n] == budgets[..n];
    }
    assert budgets[..|budgets|] == budgets;
  }

  lemma OneMoreProvider(providers: multiset<string>, p: string)
    ensures
      var more := providers + multiset{p};
      (forall q | q in more :: more[q] == 1) <==> p !in providers && forall q | q in providers :: providers[q] == 1
  {
    var more := providers + multiset{p};
    assert more[p] == providers[p] + 1;
    assert forall q | q != p :: more[q] == providers[q];
  }

  lemma {:induction false} NoProviders(provider: string, components: seq<Component>)
    ensures OfComponents(provider, components).providers == multiset{}
  {
    if components != [] {
      NoProviders(provider, components[..|components| - 1]);
    }
  }

  method SumComponents(provider: string, components: seq<Component>) returns (t: Totals)
    ensures t == OfComponents(provider, components)
  {
    hide Plus, OfComponent;
    t := ZERO;
    for n := 0 to |components|
      invariant t == OfComponents(provider, components[..n])
    {
      assert components[..n + 1][..n] == components[..n];
      t := AddComponent(t, provider, components[n]);
    }
    assert components[..|components|] == components;
  }

  /** The body of the component loop. */
  method AddComponent(t: Totals, provider: string, c: Component) returns (r: Totals)
    ensures r == Plus(t, OfComponent(provider, c))
  {
    r := t;
    if !c.enabled {
      PlusLaws(t, ZERO, ZERO);
      return;
    }
    var below := CountBelow(c);
    assert t.providers + multiset{} == t.providers;
    r := r.(steady := Add(r.steady, c.steady), hard := Add(r.hard, c.hard), faults := r.faults + below);
    if provider == "database" {
      r := r.(server := r.server + c.connections);
      if c.isPooler {
        r := r.(pooled := r.pooled + c.connections);
      } else {
        r := r.(direct := r.direct + c.connections);
      }
    } else {
      r := r.(demand := r.demand + c.connections);
    }
  }

  method CountBelow(c: Component) returns (below: nat)
    ensures below == BelowSteady(c)
  {
    below := 0;
    if c.hard.ocpu + EPSILON < c.steady.ocpu {
      below := below + 1;
    }
    if c.hard.memory as real + EPSILON < c.steady.memory as real {
      below := below + 1;
    }
    if c.hard.disk + EPSILON < c.steady.disk {
      below := below + 1;
    }
  }

  /** `main`: the report passes exactly when there is no failure of any kind. */
  method CheckCapacity(budgets: seq<Budget>, e: Envelope, c: Contract) returns (passed: bool, steady: Resources, hard: Resources)
    ensures passed <==> Passes(OfBudgets(budgets), e, c)
    ensures steady == RoundedResources(OfBudgets(budgets).steady) && hard == RoundedResources(OfBudgets(budgets).hard)
  {
    var t, failures := Aggregate(budgets);
    steady, hard := RoundedResources(t.steady), RoundedResources(t.hard);
    if exists p | p in REQUIRED_PROVIDERS :: p !in t.providers {
      failures := failures + 1;
    }
    failures := failures + LimitFailures(t, e, c);
    passed := failures == 0;
  }

  // ----- when the report passes -----

  /** Rounding gives the nearest whole number of millionths, and the even one of two that are equally near. */
  lemma RoundedExactly(x: real, n: int)
    ensures Rounded(x) == n as real / 1000000.0 <==>
      var distance := if x * 1000000.0 < n as real then n as real - x * 1000000.0 else x * 1000000.0 - n as real;
      distance < 0.5 || (distance == 0.5 && n % 2 == 0)
  {
    var scaled := x * 1000000.0;
    var low := scaled.Floor;
    var excess := scaled - low as real;
    var m := if excess < 0.5 || (excess == 0.5 && low % 2 == 0) then low else low + 1;
    assert Rounded(x) == m as real / 1000000.0;
    assert m as real / 1000000.0 == n as real / 1000000.0 <==> m == n;
  }

  predicate Within(a: Resources, limit: Resources) {
    && a.ocpu <= limit.ocpu + 0.000000001
    && a.memory <= limit.memory
    && a.disk <= limit.disk + 0.000000001
  }

  lemma WithinExactly(a: Resources, limit: Resources)
    ensures Exceeds(a, limit) == 0 <==> Within(a, limit)
  {
  }

  function ProviderNames(budgets: seq<Budget>): seq<string> {
    seq(|budgets|, i requires 0 <= i < |budgets| => budgets[i].provider)
  }

  lemma {:induction false} ProvidersOf(budgets: seq<Budget>)
    ensures OfBudgets(budgets).providers == multiset(ProviderNames(budgets))
  {
    hide OfComponents, Add;
    if budgets != [] {
      var n := |budgets| - 1;
      ProvidersOf(budgets[..n]);
      NoProviders(budgets[n].provider, budgets[n].components);
      assert ProviderNames(budgets) == ProviderNames(budgets[..n]) + [budgets[n].provider];
    }
  }

  lemma {:induction false} EachOnce(names: seq<string>)
    ensures (forall p | p in multiset(names) :: multiset(names)[p] == 1) <==> forall i, j | 0 <= i < j < |names| :: names[i] != names[j]
  {
    if names != [] {
      var n := |names| - 1;
      EachOnce(names[..n]);
      assert names == names[..n] + [names[n]];
      OneMoreProvider(multiset(names[..n]), names[n]);
      assert names[n] in multiset(names[..n]) <==> names[n] in names[..n];
      assert names[n] in names[..n] <==> exists i | 0 <= i < n :: names[i] == names[n] by {
        assert forall i | 0 <= i < n :: names[..n][i] == names[i];
      }
    }
  }

  ghost predicate Supplies(budgets: seq<Budget>, p: string) {
    exists i | 0 <= i < |budgets| :: budgets[i].provider == p
  }

  lemma ProvidersExactly(budgets: seq<Budget>)
    ensures
      var providers := OfBudgets(budgets).providers;
      && (forall p :: p in providers <==> Supplies(budgets, p))
      && ((forall p | p in providers :: providers[p] == 1) <==>
            forall i, j | 0 <= i < j < |budgets| :: budgets[i].provider != budgets[j].provider)
  {
    hide OfBudgets, Supplies, ProviderNames;
    ProvidersOf(budgets);
    EachOnce(ProviderNames(budgets));
    SameNames(budgets);
    forall p
      ensures p in multiset(ProviderNames(budgets)) <==> Supplies(budgets, p)
    {
      SuppliesExactly(budgets, p);
    }
  }

  lemma SuppliesExactly(budgets: seq<Budget>, p: string)
    ensures p in multiset(ProviderNames(budgets)) <==> Supplies(budgets, p)
  {
    var names := ProviderNames(budgets);
    assert p in multiset(names) <==> p in names;
    assert forall i | 0 <= i < |names| :: names[i] == budgets[i].provider;
  }

  lemma SameNames(budgets: seq<Budget>)
    ensures |ProviderNames(budgets)| == |budgets|
    ensures forall i | 0 <= i < |budgets| :: ProviderNames(budgets)[i] == budgets[i].provider
  {
  }

  ghost predicate Faultless(b: Budget) {
    b.schemaErrors == 0 && forall i | 0 <= i < |b.components| :: HardCoversSteady(b.components[i])
  }

  lemma OneFault(provider: string, c: Component)
    ensures OfComponent(provider, c).faults == 0 <==> HardCoversSteady(c)
  {
  }

  lemma {:induction false} ComponentFaults(provider: string, components: seq<Component>)
    ensures OfComponents(provider, components).faults == 0 <==> forall i | 0 <= i < |components| :: HardCoversSteady(components[i])
  {
    hide HardCoversSteady, OfComponent;
    if components != [] {
      var n := |components| - 1;
      ComponentFaults(provider, components[..n]);
      OneFault(provider, components[n]);
      assert forall i | 0 <= i < n :: components[..n][i] == components[i];
    }
  }

  lemma OneBudgetFault(b: Budget)
    ensures OfBudget(b).faults == 0 <==> Faultless(b)
  {
    hide OfComponents, HardCoversSteady;
    ComponentFaults(b.provider, b.components);
  }

  lemma {:induction false} BudgetFaults(budgets: seq<Budget>)
    ensures OfBudgets(budgets).faults == 0 <==> forall i | 0 <= i < |budgets| :: Faultless(budgets[i])
  {
    hide OfBudget, Faultless;
    if budgets != [] {
      var n := |budgets| - 1;
      BudgetFaults(budgets[..n]);
      OneBudgetFault(budgets[n]);
      assert forall i | 0 <= i < n :: budgets[..n][i] == budgets[i];
    }
  }

  /** The report passes if and only if all of this holds of the budgets, their totals, the envelope and the contract. */
  lemma PassesExactly(budgets: seq<Budget>, e: Envelope, c: Contract)
    ensures
      var t := OfBudgets(budgets);
      Passes(t, e, c) <==>
        && (forall i | 0 <= i < |budgets| :: Faultless(budgets[i]))
        && (forall i, j | 0 <= i < j < |budgets| :: budgets[i].provider != budgets[j].provider)
        && (forall p | p in {"infrastructure", "database", "runtime", "operations"} :: Supplies(budgets, p))
        && Within(RoundedResources(t.steady), e.steadyLimit) && Within(RoundedResources(t.hard), e.hardLimit)
        && Within(e.steadyLimit, Available(e)) && Within(e.hardLimit, Available(e))
        && t.server <= e.connectionLimit && t.demand <= t.pooled
        && t.pooled == c.runtimeServer + c.operationalPool && t.demand == c.runtimeServer && t.direct == c.directAdministrative
        && t.server + c.headroom == c.maximum && t.server <= c.maximum
  {
    hide OfBudgets, Within, Faultless, LimitFailures, Supplies, Available, RoundedResources;
    var t := OfBudgets(budgets);
    BudgetFaults(budgets);
    ProvidersExactly(budgets);
    ConnectionsSplit(budgets);
    LimitsExactly(t, e, c);
  }

  lemma LimitsExactly(t: Totals, e: Envelope, c: Contract)
    requires t.server == t.pooled + t.direct
    ensures LimitFailures(t, e, c) == 0 <==>
      && Within(RoundedResources(t.steady), e.steadyLimit) && Within(RoundedResources(t.hard), e.hardLimit)
      && Within(e.steadyLimit, Available(e)) && Within(e.hardLimit, Available(e))
      && t.server <= e.connectionLimit && t.demand <= t.pooled
      && t.pooled == c.runtimeServer + c.operationalPool && t.demand == c.runtimeServer && t.direct == c.directAdministrative
      && t.server + c.headroom == c.maximum && t.server <= c.maximum
  {
    hide Within, Exceeds, Available, RoundedResources;
    WithinExactly(RoundedResources(t.steady), e.steadyLimit);
    WithinExactly(RoundedResources(t.hard), e.hardLimit);
    WithinExactly(e.steadyLimit, Available(e));
    WithinExactly(e.hardLimit, Available(e));
  }

  // ----- what a passed result means -----

  /** `used` plus the reserve fits the host: exactly for memory, within `slack` for the others. */
  predicate FitsHost(used: Resources, e: Envelope, slack: real) {
    && used.memory + e.reserved.memory <= e.host.memory
    && used.ocpu + e.reserved.ocpu <= e.host.ocpu + slack
    && used.disk + e.reserved.disk <= e.host.disk + slack
  }

  lemma WithinLimit(used: Resources, limit: Resources, e: Envelope)
    requires Exceeds(RoundedResources(used), limit) == 0 && Exceeds(limit, Available(e)) == 0
    ensures FitsHost(used, e, 2.0 * EPSILON + HALF_UNIT)
  {
  }

  /**
   A passed result means that summed hard and steady-state amounts leave the host reserve alone,
   that pooled and direct connections make up the server reservation, and that with the headroom they
   make up PostgreSQL's maximum.
   */
  lemma PassedMeans(budgets: seq<Budget>, e: Envelope, c: Contract)
    requires Passes(OfBudgets(budgets), e, c)
    ensures
      var t := OfBudgets(budgets);
      && FitsHost(t.hard, e, 2.0 * EPSILON + HALF_UNIT) && FitsHost(t.steady, e, 2.0 * EPSILON + HALF_UNIT)
      && t.pooled + t.direct == t.server && t.server + c.headroom == c.maximum
      && t.demand <= t.pooled && t.server <= e.connectionLimit
      && (forall p | p in REQUIRED_PROVIDERS :: t.providers[p] == 1)
  {
    var t := OfBudgets(budgets);
    ConnectionsSplit(budgets);
    WithinLimit(t.hard, e.hardLimit, e);
    WithinLimit(t.steady, e.steadyLimit, e);
  }

  /** The verdict does not depend on the order of the budget files. */
  lemma VerdictIgnoresOrder(a: seq<Budget>, b: seq<Budget>, e: Envelope, c: Contract)
    requires multiset(a) == multiset(b)
    ensures Passes(OfBudgets(a), e, c) <==> Passes(OfBudgets(b), e, c)
  {
    TotalsIgnoreOrder(a, b);
  }
}
