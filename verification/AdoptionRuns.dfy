/**
 Runs of the adoption program, discovery before them and the pre-apply gate after them
 (infrastructure/deployment/adopt_v1_live_state.py, discover_v1_live_adoption.py and
 infrastructure/validation/pre_apply_readiness.py).
 */
module AdoptionRuns {
  import opened Basics
  import opened TextOrder
  import opened StateAdoption

  const PROFILE := "e5-temporary"

  /** `imports` pairs addresses with import identifiers. */
  datatype Manifest = Manifest(
    gitSha: string, profile: string, passed: bool,
    imports: seq<(string, string)>, missing: seq<string>, blockers: seq<string>)

  datatype Status = Validated | Passed | Failed

  datatype AdoptionResult = AdoptionResult(
    gitSha: string, profile: string, executed: bool, manifestSha: string, varSha: string, status: Status,
    imported: seq<string>, alreadyPresent: seq<string>, blockers: seq<string>,
    stateMutation: bool, ociMutation: bool)

  function Expected(m: Manifest): State {
    MapOf(m.imports)
  }

  // ----- what runs do to the state -----

  /** Entries are only ever added, and only for expected addresses. */
  ghost predicate Grown(expected: State, before: State, after: State) {
    && (forall a | a in before :: a in after && after[a] == before[a])
    && (forall a | a in after && a !in before :: a in expected)
  }

  /** The provider has stored matching identifiers for what was added.  No run checks this of its own imports. */
  ghost predicate Faithful(expected: State, before: State, after: State) {
    forall a | a in after && a !in before :: a in expected && Matches(a, expected[a], after[a])
  }

  /** Nothing unexpected, and every entry matches. */
  ghost predicate Consistent(expected: State, s: State) {
    forall a | a in s :: a in expected && Matches(a, expected[a], s[a])
  }

  ghost predicate Complete(expected: State, s: State) {
    Consistent(expected, s) && s.Keys == expected.Keys
  }

  /**
   The remote state, behind `tofu import`: a failed or timed out import may have written or not, and which
   identifier is stored is up to the provider.
   */
  class Store {
    var entries: State

    method Import(address: string, id: string) returns (ok: bool, ghost wrote: bool)
      modifies this
      ensures ok ==> wrote
      ensures !wrote ==> entries == old(entries)
      ensures wrote ==>
        && address !in old(entries) && address in entries
        && entries == old(entries)[address := entries[address]]
    {
      if address in entries {
        return false, false;
      }
      var stored: string := *;
      var effect: bool := *;
      ok := *;
      ok := ok && effect;
      wrote := effect;
      if effect {
        entries := entries[address := stored];
      }
    }
  }

  /** The document that `tofu state pull` gives shows the state. */
  ghost predicate Shows(document: seq<Resource>, s: State) {
    DistinctAddresses(Entries(document)) ==> MapOf(Entries(document)) == s
  }

  method Addresses(imports: seq<(string, string)>) returns (keys: seq<string>)
    ensures NoRepeats(keys)
    ensures forall a :: a in keys <==> a in MapOf(imports)
  {
    keys := [];
    for n := 0 to |imports|
      invariant NoRepeats(keys)
      invariant forall a :: a in keys <==> a in MapOf(imports[..n])
    {
      assert imports[..n + 1][..n] == imports[..n];
      if imports[n].0 !in keys {
        keys := keys + [imports[n].0];
      }
    }
    assert imports[..|imports|] == imports;
  }

  /** What a passed run has done, relative to the state it found. */
  ghost predicate PassedRun(expected: State, before: State, after: State, imported: seq<string>, alreadyPresent: seq<string>) {
    && after.Keys == expected.Keys && Consistent(expected, before)
    && (forall a :: a in alreadyPresent <==> a in before)
    && (forall a :: a in imported <==> a in expected && a !in before)
    && NoRepeats(imported) && NoRepeats(alreadyPresent)
  }

  predicate NoRepeats(s: seq<string>) {
    forall i, j | 0 <= i < j < |s| :: s[i] != s[j]
  }

  /** The import loop after its first addresses `done`, from the state `before` it read. */
  ghost predicate Progress(
      expected: State, before: State, now: State, done: seq<string>, imported: seq<string>, alreadyPresent: seq<string>)
  {
    && Grown(expected, before, now)
    && (forall a | a in done :: a in expected && a in now && (a in before ==> Matches(a, expected[a], before[a])))
    && (forall a | a in now && a !in before :: a in done)
    && (forall a :: a in alreadyPresent <==> a in done && a in before)
    && (forall a :: a in imported <==> a in done && a !in before)
    && NoRepeats(imported) && NoRepeats(alreadyPresent)
  }

  lemma NothingDone(expected: State, before: State)
    ensures Progress(expected, before, before, [], [], [])
  {
  }

  lemma OnePresent(expected: State, before: State, now: State, done: seq<string>, imported: seq<string>, alreadyPresent: seq<string>, a: string)
    requires Progress(expected, before, now, done, imported, alreadyPresent)
    requires a in expected && a !in done && a in before && Matches(a, expected[a], before[a])
    ensures Progress(expected, before, now, done + [a], imported, alreadyPresent + [a])
  {
    hide Matches;
  }

  lemma OneImported(
      expected: State, before: State, now: State, next: State, done: seq<string>, imported: seq<string>, alreadyPresent: seq<string>, a: string)
    requires Progress(expected, before, now, done, imported, alreadyPresent)
    requires a in expected && a !in done && a !in before
    requires a !in now && a in next && next == now[a := next[a]]
    ensures Progress(expected, before, next, done + [a], imported + [a], alreadyPresent)
    ensures Grown(expected, before, next) && next != before
  {
    hide Matches;
  }

  lemma AllDone(expected: State, before: State, now: State, done: seq<string>, imported: seq<string>, alreadyPresent: seq<string>)
    requires Progress(expected, before, now, done, imported, alreadyPresent)
    requires forall a :: a in done <==> a in expected
    requires forall a | a in before :: a in expected
    ensures PassedRun(expected, before, now, imported, alreadyPresent)
  {
    hide Matches;
  }

  lemma Changed(expected: State, before: State, now: State, done: seq<string>, imported: seq<string>, alreadyPresent: seq<string>)
    requires Progress(expected, before, now, done, imported, alreadyPresent)
    ensures Grown(expected, before, now)
    ensures now == before <==> imported == []
  {
    hide Matches;
    if imported != [] {
      assert imported[0] in imported;
    } else {
      assert forall a | a in now :: a in before;
    }
  }

  /** The import loop of `main`, from the state that was read. */
  method ImportMissing(store: Store, expected: State, keys: seq<string>)
      returns (ok: bool, imported: seq<string>, alreadyPresent: seq<string>, ghost cut: bool, ghost wrote: bool)
    requires Ascending(keys) && forall a :: a in keys <==> a in expected
    requires forall a | a in store.entries :: a in expected
    modifies store
    ensures Grown(expected, old(store.entries), store.entries)
    ensures ok <==> Consistent(expected, old(store.entries)) && !cut
    ensures ok ==> PassedRun(expected, old(store.entries), store.entries, imported, alreadyPresent)
    ensures wrote ==> cut
    ensures store.entries == old(store.entries) <==> imported == [] && !wrote
  {
    hide Progress, Matches, Grown, Ascending;
    var current := store.entries;
    ok, imported, alreadyPresent, cut, wrote := true, [], [], false, false;
    NothingDone(expected, current);
    for n := 0 to |keys|
      invariant ok && !cut && !wrote && current == old(store.entries)
      invariant Progress(expected, current, store.entries, keys[..n], imported, alreadyPresent)
    {
      var address := keys[n];
      assert address in keys;
      FreshKey(keys, n);
      assert keys[..n + 1] == keys[..n] + [address];
      ghost var now := store.entries;
      Changed(expected, current, now, keys[..n], imported, alreadyPresent);
      if address in current {
        if !Matches(address, expected[address], current[address]) {
          return false, imported, alreadyPresent, false, false;
        }
        OnePresent(expected, current, now, keys[..n], imported, alreadyPresent, address);
        alreadyPresent := alreadyPresent + [address];
        continue;
      }
      NotYetThere(expected, current, now, keys[..n], imported, alreadyPresent, address);
      ok, wrote := store.Import(address, expected[address]);
      if wrote {
        OneImported(expected, current, now, store.entries, keys[..n], imported, alreadyPresent, address);
      }
      if !ok {
        return false, imported, alreadyPresent, true, wrote;
      }
      wrote := false;
      imported := imported + [address];
    }
    assert keys[..|keys|] == keys;
    Changed(expected, current, store.entries, keys, imported, alreadyPresent);
    AllDone(expected, current, store.entries, keys, imported, alreadyPresent);
  }

  lemma NotYetThere(expected: State, before: State, now: State, done: seq<string>, imported: seq<string>, alreadyPresent: seq<string>, a: string)
    requires Progress(expected, before, now, done, imported, alreadyPresent)
    requires a !in done && a !in before
    ensures a !in now
  {
  }

  lemma FreshKey(keys: seq<string>, n: nat)
    requires Ascending(keys) && n < |keys|
    ensures keys[n] !in keys[..n]
  {
    forall i | 0 <= i < n
      ensures keys[i] != keys[n]
    {
      BelowIsTotal(keys[i], keys[n]);
    }
  }

  /** The result belongs to this manifest, checkout and variable file. */
  predicate Bound(m: Manifest, r: AdoptionResult, gitSha: string, manifestSha: string, varSha: string) {
    && r.gitSha == gitSha && r.profile == "e5-temporary" && r.executed && !r.ociMutation
    && r.manifestSha == manifestSha && r.varSha == varSha
    && (if r.status == Passed then r.blockers == [] else |r.blockers| == 1 && |r.blockers[0]| <= 1000)
  }

  const MAX_MESSAGE: nat := 1000

  const MAX_APPROVAL: nat := 256

  /** The result's own schema, as far as a run may break it: the approval it carries and the length of its message. */
  predicate ResultFits(r: AdoptionResult, approval: string) {
    |approval| <= MAX_APPROVAL && forall i | 0 <= i < |r.blockers| :: 3 <= |r.blockers[i]| <= MAX_MESSAGE
  }

  /** The state holds another identifier than expected, at an address whose identifiers are stored in full. */
  ghost predicate Differs(expected: State, s: State, a: string) {
    a in s && a in expected && StoredInFull(a) && s[a] != expected[a]
  }

  lemma IdenticalIsConsistent(expected: State, s: State)
    ensures s == expected ==> Consistent(expected, s)
    ensures (exists a :: Differs(expected, s, a)) ==> !Consistent(expected, s)
  {
    hide Matches;
    forall a | a in s && a in expected
      ensures s[a] == expected[a] ==> Matches(a, expected[a], s[a])
      ensures Matches(a, expected[a], s[a]) ==> !Differs(expected, s, a)
    {
      MatchesExactly(a, expected[a], s[a]);
    }
  }

  /**
   An executed adoption run.  It may be cut at any import, and the import it is cut at may have
   written.  It passes exactly when the state it found was readable and consistent and it was not
   cut; an unexpected address is refused before anything is imported.  A state with exactly the
   manifest's identifiers passes and stays as it is.
   */
  method Adopt(store: Store, m: Manifest, document: seq<Resource>, gitSha: string, manifestSha: string, varSha: string)
      returns (r: Option<AdoptionResult>, ghost cut: bool, ghost wrote: bool)
    requires Shows(document, store.entries)
    modifies store
    ensures r.None? <==> m.gitSha != gitSha || m.profile != "e5-temporary" || !m.passed || m.blockers != []
    ensures r.None? ==> store.entries == old(store.entries)
    ensures Grown(Expected(m), old(store.entries), store.entries)
    ensures r.Some? ==>
      var result := r.value;
      && Bound(m, result, gitSha, manifestSha, varSha)
      && (result.status == Passed <==>
            DistinctAddresses(Entries(document)) && Consistent(Expected(m), old(store.entries)) && !cut)
      && (result.status == Passed ==>
            PassedRun(Expected(m), old(store.entries), store.entries, result.imported, result.alreadyPresent))
      && ((exists a :: a in old(store.entries) && a !in Expected(m)) ==>
            result.status == Failed && result.imported == [] && store.entries == old(store.entries))
      && (wrote ==> cut)
      && (store.entries == old(store.entries) <==> !result.stateMutation && !wrote)
      && (DistinctAddresses(Entries(document)) && old(store.entries) == Expected(m) && !cut ==>
            result.status == Passed && result.imported == [] && store.entries == old(store.entries))
      && ((exists a :: Differs(Expected(m), old(store.entries), a)) ==> result.status == Failed)
  {
    hide MapOf, Entries, DistinctAddresses, Differs;
    cut, wrote := false, false;
    GrownSame(Expected(m), store.entries);
    if m.gitSha != gitSha || m.profile != PROFILE || !m.passed || m.blockers != [] {
      return None, cut, wrote;
    }
    IdenticalIsConsistent(Expected(m), store.entries);
    var message: string := *;
    var blocker := if |message| > MAX_MESSAGE then message[..MAX_MESSAGE] else message;
    var failed := AdoptionResult(gitSha, PROFILE, true, manifestSha, varSha, Failed, [], [], [blocker], false, false);
    var reachable: bool := *;
    if !reachable {
      return Some(failed), true, wrote;
    }
    var pulled := StateIds(document);
    if pulled.None? {
      return Some(failed), cut, wrote;
    }
    var expected := Expected(m);
    var unexpected := set a | a in pulled.value && a !in expected;
    if unexpected != {} {
      var a :| a in unexpected;
      assert !Consistent(expected, store.entries);
      return Some(failed), cut, wrote;
    }
    assert forall a | a in store.entries :: a in expected by {
      assert forall a | a in pulled.value :: a in expected || a in unexpected;
    }
    var keys := Addresses(m.imports);
    keys := Sort(keys);
    var ok, imported, alreadyPresent;
    ok, imported, alreadyPresent, cut, wrote := ImportMissing(store, expected, keys);
    if ok {
      EmptyOrNot(imported);
    }
    r := Some(failed.(
      status := if ok then Passed else Failed, imported := imported, alreadyPresent := alreadyPresent,
      blockers := if ok then [] else [blocker], stateMutation := imported != []));
  }

  /**
   The run and its report.  The result is validated after the state was changed: it is written exactly if the approval
   has at most 256 characters and a failure's message at least three, and otherwise the program ends with an exception.
   */
  method Report(
      store: Store, m: Manifest, document: seq<Resource>, gitSha: string, manifestSha: string, varSha: string, approval: string)
      returns (exit: int, written: Option<AdoptionResult>, ghost r: Option<AdoptionResult>, ghost cut: bool, ghost wrote: bool)
    requires Shows(document, store.entries)
    modifies store
    ensures Grown(Expected(m), old(store.entries), store.entries)
    ensures r.None? ==> exit == 1 && written == None && store.entries == old(store.entries)
    ensures r.Some? ==>
      var result := r.value;
      var fits := |approval| <= 256 && (result.status == Passed || (|result.blockers| == 1 && 3 <= |result.blockers[0]|));
      && Bound(m, result, gitSha, manifestSha, varSha)
      && written == (if fits then r else None)
      && exit == (if !fits then 1 else if result.status == Passed then 0 else 4)
      && (result.status == Passed <==>
            DistinctAddresses(Entries(document)) && Consistent(Expected(m), old(store.entries)) && !cut)
      && (store.entries == old(store.entries) <==> !result.stateMutation && !wrote)
  {
    hide DistinctAddresses, Entries, Consistent, Grown, PassedRun, MapOf;
    var result;
    result, cut, wrote := Adopt(store, m, document, gitSha, manifestSha, varSha);
    r := result;
    if result.None? || !ResultFits(result.value, approval) {
      return 1, None, r, cut, wrote;
    }
    return if result.value.status == Passed then 0 else 4, result, r, cut, wrote;
  }

  lemma GrownSame(expected: State, s: State)
    ensures Grown(expected, s, s)
  {
  }

  // ----- any number of runs -----

  lemma GrownTransitive(expected: State, a: State, b: State, c: State)
    requires Grown(expected, a, b) && Grown(expected, b, c)
    ensures Grown(expected, a, c)
  {
  }

  /**
   Any number of runs, each cut anywhere, keep every entry; the state stays consistent exactly as far as the provider
   has stored matching identifiers.
   */
  lemma {:induction false} ManyRuns(expected: State, states: seq<State>)
    requires states != [] && forall i | 0 <= i < |states| - 1 :: Grown(expected, states[i], states[i + 1])
    ensures Grown(expected, states[0], states[|states| - 1])
    ensures Consistent(expected, states[|states| - 1])
       <==> Consistent(expected, states[0]) && Faithful(expected, states[0], states[|states| - 1])
    decreases |states|
  {
    hide Matches, Grown, Consistent, Faithful;
    var last := |states| - 1;
    if last == 0 {
      GrownSame(expected, states[0]);
    } else {
      ManyRuns(expected, states[..last]);
      GrownTransitive(expected, states[0], states[last - 1], states[last]);
    }
    ConsistentWhenFaithful(expected, states[0], states[last]);
  }

  lemma ConsistentWhenFaithful(expected: State, before: State, after: State)
    requires Grown(expected, before, after)
    ensures Consistent(expected, after) <==> Consistent(expected, before) && Faithful(expected, before, after)
  {
    hide Matches;
  }

  /**
   After any number of cut runs and then one that passes, the state holds exactly the manifest's addresses, nothing that
   was there has changed, and the two lists of the passed run split the manifest's addresses.  Everything that the passed
   run found, including what the cut runs imported, has been checked; the state is complete with matching identifiers
   exactly if the provider was faithful in this last run.
   */
  lemma PassedAfterCuts(expected: State, states: seq<State>, after: State, imported: seq<string>, alreadyPresent: seq<string>)
    requires states != [] && forall i | 0 <= i < |states| - 1 :: Grown(expected, states[i], states[i + 1])
    requires PassedRun(expected, states[|states| - 1], after, imported, alreadyPresent)
    requires Grown(expected, states[|states| - 1], after)
    ensures after.Keys == expected.Keys && Faithful(expected, states[0], states[|states| - 1])
    ensures forall a | a in states[0] :: a in after && after[a] == states[0][a] && Matches(a, expected[a], after[a])
    ensures Complete(expected, after) <==> Faithful(expected, states[|states| - 1], after)
    ensures forall a :: a in expected <==> a in imported || a in alreadyPresent
    ensures forall a :: !(a in imported && a in alreadyPresent)
  {
    hide Matches;
    ManyRuns(expected, states);
    ConsistentWhenFaithful(expected, states[|states| - 1], after);
  }

  lemma EmptyOrNot(s: seq<string>)
    ensures s == [] || exists a :: a in s
  {
    if s != [] {
      assert s[0] in s;
    }
  }

  /** A second run that passes imports nothing and has checked everything: the state is then complete for certain. */
  lemma SecondPassIsComplete(
      expected: State, before: State, middle: State, after: State, imported: seq<string>, alreadyPresent: seq<string>,
      importedAgain: seq<string>, presentAgain: seq<string>)
    requires PassedRun(expected, before, middle, imported, alreadyPresent)
    requires PassedRun(expected, middle, after, importedAgain, presentAgain) && Grown(expected, middle, after)
    ensures importedAgain == [] && after == middle && Complete(expected, after)
  {
    hide Matches;
    EmptyOrNot(importedAgain);
    assert forall a | a in after :: a in middle;
  }

  // ----- discovery -----

  function Firsts(pairs: seq<(string, string)>): set<string> {
    set i | 0 <= i < |pairs| :: pairs[i].0
  }

  function Seconds(pairs: seq<(string, string)>): set<string> {
    set i | 0 <= i < |pairs| :: pairs[i].1
  }

  function Elements(s: seq<string>): set<string> {
    set x | x in s
  }

  /** Imported and missing addresses split the source graph. */
  predicate Partitions(graph: set<string>, m: Manifest) {
    && Firsts(m.imports) !! Elements(m.missing)
    && Firsts(m.imports) + Elements(m.missing) == graph
  }

  /**
   The end of discovery: `graph` lists each key with its address; `findings` are the keys looked up,
   each with the import identifier of the resource found, if one was.
   */
  method Discover(graph: seq<(string, string)>, findings: seq<(string, Option<string>)>, blockers: seq<string>, gitSha: string)
      returns (m: Manifest)
    requires DistinctAddresses(graph)
    requires forall i, j | 0 <= i < j < |graph| :: graph[i].1 != graph[j].1
    requires forall i | 0 <= i < |findings| :: findings[i].0 in MapOf(graph)
    ensures Partitions(Seconds(graph), m)
    ensures forall a, id :: (a, id) in m.imports <==> Found(graph, findings, a, id)
    ensures ByAddress(m.imports)
    ensures NoRepeats(m.missing) && (m.passed <==> blockers == []) && m.blockers == blockers
    ensures m.gitSha == gitSha && m.profile == PROFILE
  {
    var imports := CollectImports(graph, findings);
    var missing := MissingAddresses(graph, imports);
    var sorted := SortByAddress(imports);
    assert forall i | 0 <= i < |sorted| :: sorted[i] in imports;
    assert Firsts(sorted) == Firsts(imports) by {
      assert forall i | 0 <= i < |imports| :: imports[i] in sorted;
    }
    m := Manifest(gitSha, PROFILE, blockers == [], sorted, missing, blockers);
    Splits(graph, m);
  }

  ghost predicate ByAddress(pairs: seq<(string, string)>) {
    forall i, j | 0 <= i < j < |pairs| :: !Below(pairs[j].0, pairs[i].0)
  }

  /** The records in the order of their addresses, none lost and none added. */
  method SortByAddress(pairs: seq<(string, string)>) returns (r: seq<(string, string)>)
    ensures ByAddress(r) && multiset(r) == multiset(pairs)
    ensures forall x :: x in r <==> x in pairs
  {
    r := [];
    for n := 0 to |pairs|
      invariant ByAddress(r) && multiset(r) == multiset(pairs[..n])
    {
      var x := pairs[n];
      var i := |r|;
      while i > 0 && Below(x.0, r[i - 1].0)
        invariant 0 <= i <= |r|
        invariant forall j | i <= j < |r| :: Below(x.0, r[j].0)
      {
        i := i - 1;
      }
      InsertByAddress(r, i, x);
      assert pairs[..n + 1] == pairs[..n] + [x];
      r := r[..i] + [x] + r[i..];
    }
    assert pairs[..|pairs|] == pairs;
    assert forall x :: x in r <==> x in multiset(r);
  }

  lemma InsertByAddress(r: seq<(string, string)>, i: nat, x: (string, string))
    requires ByAddress(r) && i <= |r|
    requires i > 0 ==> !Below(x.0, r[i - 1].0)
    requires forall j | i <= j < |r| :: Below(x.0, r[j].0)
    ensures ByAddress(r[..i] + [x] + r[i..]) && multiset(r[..i] + [x] + r[i..]) == multiset(r) + multiset{x}
  {
    hide Below;
    assert r == r[..i] + r[i..];
    forall j | 0 <= j < |r|
      ensures j < i ==> !Below(x.0, r[j].0)
      ensures i <= j ==> !Below(r[j].0, x.0)
    {
      BelowIsTotal(x.0, r[j].0);
      if j < i - 1 && Below(x.0, r[j].0) {
        BelowIsTotal(r[j].0, r[i - 1].0);
        if Below(r[j].0, r[i - 1].0) {
          BelowIsTransitive(x.0, r[j].0, r[i - 1].0);
        }
      }
    }
  }

  /** The `add_import` calls: a record for every resource that was found. */
  method CollectImports(graph: seq<(string, string)>, findings: seq<(string, Option<string>)>)
      returns (imports: seq<(string, string)>)
    requires DistinctAddresses(graph)
    requires forall i | 0 <= i < |findings| :: findings[i].0 in MapOf(graph)
    ensures forall i | 0 <= i < |imports| :: imports[i].0 in Seconds(graph)
    ensures forall a, id :: (a, id) in imports <==> Found(graph, findings, a, id)
  {
    hide MapOf, DistinctAddresses, Found;
    imports := [];
    NothingFound(graph);
    for n := 0 to |findings|
      invariant forall i | 0 <= i < |imports| :: imports[i].0 in Seconds(graph)
      invariant forall a, id :: (a, id) in imports <==> Found(graph, findings[..n], a, id)
    {
      var (key, found) := findings[n];
      assert findings[..n + 1] == findings[..n] + [findings[n]];
      OneMoreFinding(graph, findings[..n], findings[n]);
      if found.Some? {
        var address := MapOf(graph)[key];
        InGraph(graph, key);
        imports := imports + [(address, found.value)];
      }
    }
    assert findings[..|findings|] == findings;
  }

  /** Some lookup found this import identifier for this address. */
  ghost predicate Found(graph: seq<(string, string)>, findings: seq<(string, Option<string>)>, a: string, id: string) {
    exists i | 0 <= i < |findings| ::
      findings[i].1 == Some(id) && findings[i].0 in MapOf(graph) && MapOf(graph)[findings[i].0] == a
  }

  lemma NothingFound(graph: seq<(string, string)>)
    ensures forall a, id :: !Found(graph, [], a, id)
  {
  }

  lemma OneMoreFinding(graph: seq<(string, string)>, findings: seq<(string, Option<string>)>, f: (string, Option<string>))
    requires f.0 in MapOf(graph)
    ensures forall a, id :: Found(graph, findings + [f], a, id) <==>
      Found(graph, findings, a, id) || (f.1 == Some(id) && MapOf(graph)[f.0] == a)
  {
    hide MapOf;
    var all := findings + [f];
    forall a, id
      ensures Found(graph, all, a, id) <==> Found(graph, findings, a, id) || (f.1 == Some(id) && MapOf(graph)[f.0] == a)
    {
      if Found(graph, findings, a, id) {
        var i :| 0 <= i < |findings| && findings[i].1 == Some(id) && findings[i].0 in MapOf(graph) && MapOf(graph)[findings[i].0] == a;
        assert all[i] == findings[i];
      }
      assert all[|findings|] == f;
    }
  }

  lemma InGraph(graph: seq<(string, string)>, key: string)
    requires DistinctAddresses(graph) && key in MapOf(graph)
    ensures MapOf(graph)[key] in Seconds(graph)
  {
    MapOfKeys(graph);
    hide MapOf;
    var k :| 0 <= k < |graph| && graph[k].0 == key;
    assert graph[k].1 == MapOf(graph)[key];
  }

  /** The addresses of the source graph for which nothing was found, in order. */
  method MissingAddresses(graph: seq<(string, string)>, imports: seq<(string, string)>) returns (missing: seq<string>)
    requires forall i, j | 0 <= i < j < |graph| :: graph[i].1 != graph[j].1
    ensures Ascending(missing) && NoRepeats(missing)
    ensures forall a :: a in missing <==> a in Seconds(graph) && a !in Firsts(imports)
  {
    missing := [];
    for n := 0 to |graph|
      invariant NoRepeats(missing)
      invariant forall a :: a in missing <==> a !in Firsts(imports) && exists i | 0 <= i < n :: graph[i].1 == a
    {
      if graph[n].1 !in Firsts(imports) {
        missing := missing + [graph[n].1];
      }
    }
    missing := Sort(missing);
    AscendingHasNoRepeats(missing);
  }

  lemma AscendingHasNoRepeats(s: seq<string>)
    requires Ascending(s)
    ensures NoRepeats(s)
  {
    forall i, j | 0 <= i < j < |s|
      ensures s[i] != s[j]
    {
      BelowIsTotal(s[i], s[j]);
    }
  }

  lemma Splits(graph: seq<(string, string)>, m: Manifest)
    requires forall i | 0 <= i < |m.imports| :: m.imports[i].0 in Seconds(graph)
    requires forall a :: a in m.missing <==> a in Seconds(graph) && a !in Firsts(m.imports)
    ensures Partitions(Seconds(graph), m)
  {
  }

  // ----- the pre-apply gate -----

  datatype Gate = GatePassed | GateBlocked | GateFailed

  /** A document the gate is given: no path, a file that cannot be read or does not fit its schema, or its contents. */
  datatype Document<T> = Absent | Unreadable | Read(value: T)

  /** `adoption_check` on the manifest. */
  function AdoptionCheck(m: Document<Manifest>, gitSha: string, graph: set<string>): Gate {
    match m
    case Absent => GateBlocked
    case Unreadable => GateFailed
    case Read(d) =>
      if d.gitSha != gitSha || d.profile != PROFILE then GateFailed
      else if !d.passed || d.blockers != [] || !Partitions(graph, d) then GateBlocked
      else GatePassed
  }

  /** `adoption_result_check` on the result of an adoption run. */
  function AdoptionResultCheck(
      r: Document<AdoptionResult>, gitSha: string, manifestSha: Option<string>, varSha: Option<string>, addresses: Option<set<string>>): Gate
  {
    match r
    case Absent => GateBlocked
    case Unreadable => GateFailed
    case Read(d) =>
      if d.gitSha != gitSha || d.profile != PROFILE then GateFailed
      else if manifestSha.None? || varSha.None? || addresses.None? then GateBlocked
      else if d.manifestSha != manifestSha.value || d.varSha != varSha.value then GateFailed
      else if Elements(d.imported) + Elements(d.alreadyPresent) != addresses.value then GateFailed
      else if !d.executed || d.status != Passed || d.blockers != [] || d.ociMutation then GateBlocked
      else GatePassed
  }

  /** What the gate says of a manifest, on its fields: every address of the graph imported or missing, and not both. */
  lemma AdoptionCheckExactly(m: Document<Manifest>, gitSha: string, graph: set<string>)
    ensures AdoptionCheck(m, gitSha, graph) == GatePassed <==>
      && m.Read? && m.value.gitSha == gitSha && m.value.profile == "e5-temporary" && m.value.passed && m.value.blockers == []
      && forall a ::
           && (a in graph <==> (exists i | 0 <= i < |m.value.imports| :: m.value.imports[i].0 == a) || a in m.value.missing)
           && !((exists i | 0 <= i < |m.value.imports| :: m.value.imports[i].0 == a) && a in m.value.missing)
    ensures AdoptionCheck(m, gitSha, graph) == GateFailed <==>
      m.Unreadable? || (m.Read? && (m.value.gitSha != gitSha || m.value.profile != "e5-temporary"))
  {
    if m.Read? {
      var firsts, missing := Firsts(m.value.imports), Elements(m.value.missing);
      assert forall a :: a in firsts <==> exists i | 0 <= i < |m.value.imports| :: m.value.imports[i].0 == a;
      assert forall a :: a in missing <==> a in m.value.missing;
      SplitExactly(graph, firsts, missing);
    }
  }

  lemma SplitExactly(graph: set<string>, a: set<string>, b: set<string>)
    ensures a !! b && a + b == graph <==> forall x :: (x in graph <==> x in a || x in b) && !(x in a && x in b)
  {
  }

  /** What the gate says of the result of an adoption run, on its fields; whatever is neither passed nor failed is blocked. */
  lemma AdoptionResultCheckExactly(
      r: Document<AdoptionResult>, gitSha: string, manifestSha: Option<string>, varSha: Option<string>, addresses: Option<set<string>>)
    ensures AdoptionResultCheck(r, gitSha, manifestSha, varSha, addresses) == GatePassed <==>
      && r.Read? && r.value.gitSha == gitSha && r.value.profile == "e5-temporary"
      && manifestSha == Some(r.value.manifestSha) && varSha == Some(r.value.varSha) && addresses.Some?
      && (forall a :: a in addresses.value <==> a in r.value.imported || a in r.value.alreadyPresent)
      && r.value.executed && r.value.status == Passed && r.value.blockers == [] && !r.value.ociMutation
    ensures AdoptionResultCheck(r, gitSha, manifestSha, varSha, addresses) == GateFailed <==>
      r.Unreadable? ||
      (r.Read? &&
        (|| r.value.gitSha != gitSha || r.value.profile != "e5-temporary"
         || (manifestSha.Some? && varSha.Some? && addresses.Some? &&
              (|| manifestSha.value != r.value.manifestSha || varSha.value != r.value.varSha
               || exists a :: (a in addresses.value) != (a in r.value.imported || a in r.value.alreadyPresent)))))
  {
    if r.Read? && addresses.Some? {
      var covered := Elements(r.value.imported) + Elements(r.value.alreadyPresent);
      assert forall a :: a in covered <==> a in r.value.imported || a in r.value.alreadyPresent;
      assert covered == addresses.value <==> forall a :: a in covered <==> a in addresses.value;
    }
  }

  /**
   The three programs fit together: a discovered manifest without blockers satisfies the gate, and
   the result of an adoption run of it, for the same files, satisfies the gate exactly when it passed.
   */
  lemma HandoffPasses(
      graph: set<string>, m: Manifest, gitSha: string, manifestSha: string, varSha: string,
      r: AdoptionResult, before: State, after: State)
    requires m.gitSha == gitSha && m.profile == PROFILE && m.passed && m.blockers == []
    requires Partitions(graph, m)
    requires Bound(m, r, gitSha, manifestSha, varSha)
    requires r.status == Passed ==> PassedRun(Expected(m), before, after, r.imported, r.alreadyPresent)
    ensures AdoptionCheck(Read(m), gitSha, graph) == GatePassed
    ensures AdoptionResultCheck(Read(r), gitSha, Some(manifestSha), Some(varSha), Some(Firsts(m.imports))) == GatePassed
        <==> r.status == Passed
  {
    hide Matches;
    if r.status == Passed {
      MapOfKeys(m.imports);
      assert Elements(r.imported) + Elements(r.alreadyPresent) == Firsts(m.imports);
    }
  }
}
