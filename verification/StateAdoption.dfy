/**
 Adoption of existing cloud resources into the OpenTofu state, across three programs: discovery
 (infrastructure/deployment/discover_v1_live_adoption.py) writes a manifest, adoption
 (infrastructure/deployment/adopt_v1_live_state.py) imports what the state lacks and may stop at any
 import and be run again, and the pre-apply gate (infrastructure/validation/pre_apply_readiness.py)
 checks both documents.
 */
module StateAdoption {
  import opened Basics
  import opened TextOrder

  type State = map<string, string>

  // ----- identifiers -----

  const RULE_PREFIX := "module.v1_live.oci_core_network_security_group_security_rule."
  const KEY_ADDRESS := "module.v1_live.oci_kms_key.main"

  predicate StartsWith(s: string, prefix: string) {
    |prefix| <= |s| && s[..|prefix|] == prefix
  }

  predicate EndsWith(s: string, suffix: string) {
    |suffix| <= |s| && s[|s| - |suffix|..] == suffix
  }

  /** `identifiers_match`: the provider may store only the last part of some import identifiers. */
  predicate Matches(address: string, expected: string, actual: string) {
    || actual == expected
    || (StartsWith(address, RULE_PREFIX) && EndsWith(expected, "/securityRules/" + actual))
    || (!StartsWith(address, RULE_PREFIX) && address == KEY_ADDRESS && EndsWith(expected, "/keys/" + actual))
  }

  /** What follows the last slash is unique. */
  lemma LastPart(a: string, b: string, x: string, y: string)
    requires '/' !in x && '/' !in y
    requires a + "/" + x == b + "/" + y
    ensures x == y
  {
    var s := a + "/" + x;
    assert s[|a|] == '/' && s[|b|] == '/';
    assert forall k | |a| < k < |s| :: s[k] == x[k - |a| - 1] && s[k] != '/';
    assert forall k | |b| < k < |s| :: s[k] == y[k - |b| - 1] && s[k] != '/';
    assert s[|a| + 1..] == x && s[|b| + 1..] == y;
  }

  lemma EndsWithPart(front: string, middle: string, x: string, y: string)
    requires '/' !in x && '/' !in y
    ensures EndsWith(front + (middle + "/") + x, middle + "/" + y) <==> x == y
  {
    var s, suffix := front + (middle + "/") + x, middle + "/" + y;
    assert s == (front + middle) + "/" + x;
    if EndsWith(s, suffix) {
      var head := s[..|s| - |suffix|];
      assert s == head + suffix;
      assert head + suffix == (head + middle) + "/" + y;
      LastPart(front + middle, head + middle, x, y);
    }
    if x == y {
      assert s == front + suffix;
      assert s[|s| - |suffix|..] == suffix;
    }
  }

  /**
   The import identifiers that discovery writes for security rules and for the key match exactly the
   short identifier the provider stores for them, and no other one.
   */
  lemma DiscoveredIdentifierMatches(address: string, group: string, endpoint: string, x: string, y: string)
    requires '/' !in x && '/' !in y
    ensures StartsWith(address, RULE_PREFIX) ==>
      (Matches(address, "networkSecurityGroups/" + group + "/securityRules/" + x, y) <==> x == y)
    ensures !StartsWith(address, RULE_PREFIX) && address == KEY_ADDRESS ==>
      (Matches(address, "managementEndpoint/" + endpoint + "/keys/" + x, y) <==> x == y)
  {
    var rule := "networkSecurityGroups/" + group + "/securityRules/" + x;
    var key := "managementEndpoint/" + endpoint + "/keys/" + x;
    EndsWithPart("networkSecurityGroups/" + group, "/securityRules", x, y);
    EndsWithPart("managementEndpoint/" + endpoint, "/keys", x, y);
    assert rule == "networkSecurityGroups/" + group + ("/securityRules" + "/") + x;
    assert key == "managementEndpoint/" + endpoint + ("/keys" + "/") + x;
    assert "/securityRules/" + y == "/securityRules" + "/" + y;
    assert "/keys/" + y == "/keys" + "/" + y;
    assert rule[0] == 'n' && rule[21] == '/' && key[18] == '/';
  }

  /** Addresses whose identifiers the provider stores in full. */
  predicate StoredInFull(address: string) {
    && !("module.v1_live.oci_core_network_security_group_security_rule." <= address)
    && address != "module.v1_live.oci_kms_key.main"
  }

  /** Equal identifiers always match; others only if one of a rule or of the key is the last part of the expected one. */
  lemma MatchesExactly(address: string, x: string, y: string)
    ensures Matches(address, x, x)
    ensures StoredInFull(address) ==> (Matches(address, x, y) <==> x == y)
    ensures "module.v1_live.oci_core_network_security_group_security_rule." <= address ==>
      (Matches(address, x, y) <==> x == y || exists front: string :: x == front + ("/securityRules/" + y))
    ensures address == "module.v1_live.oci_kms_key.main" ==>
      (Matches(address, x, y) <==> x == y || exists front: string :: x == front + ("/keys/" + y))
  {
    EndsWithExactly(x, "/securityRules/" + y);
    EndsWithExactly(x, "/keys/" + y);
    assert RULE_PREFIX <= address <==> StartsWith(address, RULE_PREFIX);
    assert RULE_PREFIX[19] == 'c' && KEY_ADDRESS[19] == 'k';
  }

  lemma EndsWithExactly(s: string, suffix: string)
    ensures EndsWith(s, suffix) <==> exists front: string :: s == front + suffix
  {
    if EndsWith(s, suffix) {
      assert s == s[..|s| - |suffix|] + suffix;
    }
  }

  // ----- reading the state -----

  datatype Instance = Instance(id: Option<string>, index: Option<string>)

  /** A resource block of the state document; `index` is the rendered index key of an instance. */
  datatype Resource = Resource(
    mode: Option<string>, kind: string, name: string, enclosing: Option<string>, instances: seq<Instance>)

  predicate IsManaged(r: Resource) {
    (r.mode == None || r.mode == Some("managed")) && StartsWith(r.kind, "oci_")
  }

  function AddressOf(r: Resource, i: Instance): string {
    var prefix := if r.enclosing.Some? && r.enclosing.value != "" then r.enclosing.value + "." else "";
    var base := prefix + r.kind + "." + r.name;
    if i.index.None? then base else base + "[" + i.index.value + "]"
  }

  function InstanceEntries(r: Resource, n: nat): seq<(string, string)>
    requires n <= |r.instances|
  {
    if n == 0 then []
    else
      var i := r.instances[n - 1];
      InstanceEntries(r, n - 1) + if i.id.Some? then [(AddressOf(r, i), i.id.value)] else []
  }

  /** The addresses and identifiers a state document shows, in order. */
  function Entries(document: seq<Resource>): seq<(string, string)> {
    if document == [] then []
    else
      var r := document[|document| - 1];
      Entries(document[..|document| - 1]) + if IsManaged(r) then InstanceEntries(r, |r.instances|) else []
  }

  function MapOf(entries: seq<(string, string)>): State {
    if entries == [] then map[]
    else MapOf(entries[..|entries| - 1])[entries[|entries| - 1].0 := entries[|entries| - 1].1]
  }

  ghost predicate DistinctAddresses(entries: seq<(string, string)>) {
    forall i, j | 0 <= i < j < |entries| :: entries[i].0 != entries[j].0
  }

  lemma {:induction false} MapOfKeys(entries: seq<(string, string)>)
    ensures forall a :: a in MapOf(entries) <==> exists i | 0 <= i < |entries| :: entries[i].0 == a
    ensures DistinctAddresses(entries) ==>
      forall i | 0 <= i < |entries| :: entries[i].0 in MapOf(entries) && MapOf(entries)[entries[i].0] == entries[i].1
  {
    if entries != [] {
      var n := |entries| - 1;
      MapOfKeys(entries[..n]);
      forall a
        ensures a in MapOf(entries) <==> exists i | 0 <= i < |entries| :: entries[i].0 == a
      {
        if a in MapOf(entries[..n]) {
          var i :| 0 <= i < n && entries[..n][i].0 == a;
          assert entries[i].0 == a;
        }
        if exists i | 0 <= i < |entries| :: entries[i].0 == a {
          var i :| 0 <= i < |entries| && entries[i].0 == a;
          assert i < n ==> entries[..n][i].0 == a;
        }
      }
    }
  }

  /** Of several entries for one address, the last one counts. */
  lemma {:induction false} MapOfLast(entries: seq<(string, string)>, i: nat)
    requires i < |entries| && forall j | i < j < |entries| :: entries[j].0 != entries[i].0
    ensures entries[i].0 in MapOf(entries) && MapOf(entries)[entries[i].0] == entries[i].1
  {
    if i < |entries| - 1 {
      MapOfLast(entries[..|entries| - 1], i);
    }
  }

  /**
   What a document shows, block by block and instance by instance: the string identifiers of managed resources, or ones
   without a mode, whose type begins with "oci_".
   */
  lemma {:induction false} EntriesLaws(a: seq<Resource>, b: seq<Resource>, r: Resource, x: seq<Instance>, y: seq<Instance>, i: Instance)
    ensures Entries(a + b) == Entries(a) + Entries(b)
    ensures Entries([r.(instances := x + y)]) == Entries([r.(instances := x)]) + Entries([r.(instances := y)])
    ensures Entries([r.(instances := [i])]) ==
      if (r.mode == None || r.mode == Some("managed")) && "oci_" <= r.kind && i.id.Some? then
        [((if r.enclosing == None || r.enclosing == Some("") then "" else r.enclosing.value + ".")
          + r.kind + "." + r.name + (if i.index.None? then "" else "[" + i.index.value + "]"),
          i.id.value)]
      else []
  {
    hide AddressOf, Entries, InstanceEntries;
    EntriesAppend(a, b);
    InstancesAppend(r, x, y);
    EntriesOfOne(r.(instances := x + y));
    EntriesOfOne(r.(instances := x));
    EntriesOfOne(r.(instances := y));
    OneInstance(r.(instances := [i]), i);
    AddressExactly(r.(instances := [i]), i);
  }

  lemma OneInstance(r: Resource, i: Instance)
    requires r.instances == [i]
    ensures Entries([r]) ==
      if (r.mode == None || r.mode == Some("managed")) && "oci_" <= r.kind && i.id.Some? then [(AddressOf(r, i), i.id.value)]
      else []
  {
    hide AddressOf, Entries;
    EntriesOfOne(r);
    assert InstanceEntries(r, 0) == [];
  }

  lemma AddressExactly(r: Resource, i: Instance)
    ensures AddressOf(r, i) ==
      (if r.enclosing == None || r.enclosing == Some("") then "" else r.enclosing.value + ".")
      + r.kind + "." + r.name + (if i.index.None? then "" else "[" + i.index.value + "]")
  {
  }

  lemma EntriesOfOne(r: Resource)
    ensures Entries([r]) == if IsManaged(r) then InstanceEntries(r, |r.instances|) else []
  {
    assert [r][..0] == [];
    assert Entries([]) == [];
  }

  lemma {:induction false} EntriesAppend(a: seq<Resource>, b: seq<Resource>)
    ensures Entries(a + b) == Entries(a) + Entries(b)
    decreases |b|
  {
    hide IsManaged, InstanceEntries;
    if b == [] {
      assert a + b == a;
    } else {
      var n := |b| - 1;
      EntriesAppend(a, b[..n]);
      assert (a + b)[..|a + b| - 1] == a + b[..n];
    }
  }

  lemma {:induction false} InstancesAppend(r: Resource, x: seq<Instance>, y: seq<Instance>)
    ensures
      InstanceEntries(r.(instances := x + y), |x + y|)
      == InstanceEntries(r.(instances := x), |x|) + InstanceEntries(r.(instances := y), |y|)
    decreases |y|
  {
    hide AddressOf;
    if y == [] {
      assert x + y == x;
    } else {
      var n := |y| - 1;
      InstancesAppend(r, x, y[..n]);
      assert x + y == x + y[..n] + [y[n]] && y == y[..n] + [y[n]];
      LastInstance(r, x + y[..n], y[n]);
      LastInstance(r, y[..n], y[n]);
    }
  }

  lemma LastInstance(r: Resource, x: seq<Instance>, i: Instance)
    ensures InstanceEntries(r.(instances := x + [i]), |x + [i]|) ==
      InstanceEntries(r.(instances := x), |x|) + if i.id.Some? then [(AddressOf(r, i), i.id.value)] else []
  {
    InstancesBefore(r, x, i, |x|);
  }

  lemma {:induction false} InstancesBefore(r: Resource, x: seq<Instance>, i: Instance, n: nat)
    requires n <= |x|
    ensures InstanceEntries(r.(instances := x + [i]), n) == InstanceEntries(r.(instances := x), n)
  {
    if n > 0 {
      InstancesBefore(r, x, i, n - 1);
    }
  }

  /** Add the instances of one resource block to the entries seen so far. */
  method AddInstances(r: Resource, known: State, ghost seen: seq<(string, string)>) returns (result: Option<State>)
    requires DistinctAddresses(seen) && known == MapOf(seen)
    ensures
      var all := seen + InstanceEntries(r, |r.instances|);
      match result
      case Some(m) => DistinctAddresses(all) && m == MapOf(all)
      case None => !DistinctAddresses(all)
  {
    hide AddressOf, MapOf, DistinctAddresses;
    var m := known;
    assert seen + [] == seen;
    for k := 0 to |r.instances|
      invariant DistinctAddresses(seen + InstanceEntries(r, k)) && m == MapOf(seen + InstanceEntries(r, k))
    {
      var instance := r.instances[k];
      ghost var before := seen + InstanceEntries(r, k);
      if instance.id.None? {
        assert InstanceEntries(r, k) + [] == InstanceEntries(r, k);
        continue;
      }
      var address := AddressOf(r, instance);
      ghost var entry := (address, instance.id.value);
      assert seen + InstanceEntries(r, k + 1) == before + [entry];
      OneMoreEntry(before, entry);
      if address in m {
        InstanceEntriesPrefix(r, k + 1, |r.instances|);
        Repeated(before, entry, seen + InstanceEntries(r, |r.instances|));
        return None;
      }
      m := m[address := instance.id.value];
    }
    result := Some(m);
  }

  lemma OneMoreEntry(before: seq<(string, string)>, entry: (string, string))
    requires DistinctAddresses(before)
    ensures MapOf(before + [entry]) == MapOf(before)[entry.0 := entry.1]
    ensures if entry.0 in MapOf(before) then exists i | 0 <= i < |before| :: before[i].0 == entry.0
            else DistinctAddresses(before + [entry])
  {
    MapOfKeys(before);
    assert (before + [entry])[..|before|] == before;
  }

  lemma Repeated(seen: seq<(string, string)>, entry: (string, string), all: seq<(string, string)>)
    requires seen + [entry] <= all
    requires exists i | 0 <= i < |seen| :: seen[i].0 == entry.0
    ensures !DistinctAddresses(all)
  {
    var i :| 0 <= i < |seen| && seen[i].0 == entry.0;
    assert all[i] == (seen + [entry])[i] && all[|seen|] == (seen + [entry])[|seen|];
  }

  /** `state_ids`: the shown entries as a map, or None when an address is shown twice. */
  method StateIds(document: seq<Resource>) returns (r: Option<State>)
    ensures match r
      case Some(m) => DistinctAddresses(Entries(document)) && m == MapOf(Entries(document))
      case None => !DistinctAddresses(Entries(document))
  {
    hide InstanceEntries, IsManaged, MapOf;
    var result: State := map[];
    assert result == MapOf([]) by { EmptyMap(); }
    for n := 0 to |document|
      invariant DistinctAddresses(Entries(document[..n])) && result == MapOf(Entries(document[..n]))
    {
      assert document[..n + 1][..n] == document[..n];
      if !IsManaged(document[n]) {
        assert Entries(document[..n]) + [] == Entries(document[..n]);
        continue;
      }
      var more := AddInstances(document[n], result, Entries(document[..n]));
      EntriesPrefix(document, n + 1);
      if more.None? {
        return None;
      }
      result := more.value;
    }
    assert document[..|document|] == document;
    r := Some(result);
  }

  lemma EmptyMap()
    ensures MapOf([]) == map[]
  {
  }

  lemma {:induction false} EntriesPrefix(document: seq<Resource>, n: nat)
    requires n <= |document|
    ensures Entries(document[..n]) <= Entries(document)
    decreases |document|
  {
    if n == |document| {
      assert document[..n] == document;
    } else {
      EntriesPrefix(document[..|document| - 1], n);
      assert document[..|document| - 1][..n] == document[..n];
    }
  }

  lemma {:induction false} InstanceEntriesPrefix(r: Resource, k: nat, n: nat)
    requires k <= n <= |r.instances|
    ensures InstanceEntries(r, k) <= InstanceEntries(r, n)
    decreases n
  {
    if k < n {
      InstanceEntriesPrefix(r, k, n - 1);
    }
  }

}
