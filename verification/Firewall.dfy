/** The firewall adapter: static tables filled in two passes, the policy program's walk over them,
    and the hit counters added back (jordyOS/net/fw_bpf.c, jordyOS/net/bpf/program.bpf.c). */
module Firewall {
  import opened Words
  import opened FirewallModel

  datatype Key = Key(prefixLength: nat, address: seq<u8>)

  function KeyOf(rule: Rule): Key
  {
    var e := Convert(rule, 0);
    Key(e.srcBits, e.src)
  }

  function Keys(rules: seq<Rule>, s: seq<nat>): (t: seq<Key>)
    requires Numbers(rules, s)
    ensures |t| == |s|
    ensures forall k :: 0 <= k < |s| ==> t[k] == KeyOf(rules[s[k]])
  {
    if s == [] then []
    else
      var front := s[..|s| - 1];
      assert forall k :: 0 <= k < |front| ==> front[k] == s[k];
      Keys(rules, front) + [KeyOf(rules[s[|s| - 1]])]
  }

  lemma {:induction false} KeysPush(rules: seq<Rule>, s: seq<nat>, i: nat)
    requires Numbers(rules, s) && i < |rules|
    ensures Numbers(rules, s + [i])
    ensures Keys(rules, s + [i]) == Keys(rules, s) + [KeyOf(rules[i])]
  {
    assert (s + [i])[..|s|] == s;
  }

  datatype Header = Header(count: nat, ready: bool, schema: nat, generation: nat, defaults: seq<nat>, blocks: nat)

  /** Rules visited in pass `pass` before rule `i`. */
  function Visited(rules: seq<Rule>, pass: nat, i: nat): seq<nat>
    requires i <= |rules|
  {
    if pass == 0 then Chosen(rules, true, i)
    else Chosen(rules, true, |rules|) + Chosen(rules, false, i)
  }

  /** Blocks listed in pass `pass` before rule `i`. */
  function Blocks(rules: seq<Rule>, pass: nat, i: nat): seq<nat>
    requires i <= |rules|
  {
    Chosen(rules, true, if pass == 0 then i else |rules|)
  }

  lemma {:induction false} VisitedNumbers(rules: seq<Rule>, pass: nat, i: nat)
    requires i <= |rules|
    ensures Numbers(rules, Visited(rules, pass, i)) && |Visited(rules, pass, i)| <= |rules|
    ensures Numbers(rules, Chosen(rules, true, i))
  {
    ChosenSelects(rules, true, i);
    ChosenSelects(rules, true, |rules|);
    ChosenSelects(rules, false, i);
    ChosenCount(rules, |rules|);
    ChosenGrows(rules, true, i, |rules|);
    ChosenGrows(rules, false, i, |rules|);
  }

  lemma {:induction false} VisitedStep(rules: seq<Rule>, pass: nat, i: nat)
    requires i < |rules| && pass < 2
    ensures rules[i].block != (pass == 0) ==> Visited(rules, pass, i + 1) == Visited(rules, pass, i)
    ensures rules[i].block == (pass == 0) ==> Visited(rules, pass, i + 1) == Visited(rules, pass, i) + [i]
    ensures rules[i].block == (pass == 0) ==> |Visited(rules, pass, i)| < |rules|
    ensures pass == 0 && rules[i].block ==> Blocks(rules, pass, i + 1) == Blocks(rules, pass, i) + [i]
    ensures pass == 0 && rules[i].block ==> |Blocks(rules, pass, i)| < |rules|
    ensures pass == 1 || !rules[i].block ==> Blocks(rules, pass, i + 1) == Blocks(rules, pass, i)
  {
    VisitedNumbers(rules, pass, i + 1);
  }

  /** The tables so far: policy slots `1 .. |s| + 1` and the blocks' keys and numbers. */
  ghost predicate Filled(rules: seq<Rule>, s: seq<nat>, policy: array<Entry>)
    reads policy
  {
    policy.Length == RULES + 1 && |s| <= RULES && Numbers(rules, s)
    && policy[1..|s| + 1] == Entries(rules, s)
  }

  ghost predicate Listed(rules: seq<Rule>, s: seq<nat>, prefixes: array<Key>, indexes: array<nat>)
    reads prefixes, indexes
  {
    prefixes.Length == indexes.Length == RULES && |s| <= RULES && Numbers(rules, s)
    && prefixes[..|s|] == Keys(rules, s) && indexes[..|s|] == s
  }

  method EmitEntry(rules: seq<Rule>, ghost s: seq<nat>, i: nat, entry: nat, policy: array<Entry>)
    requires i < |rules| && Filled(rules, s, policy) && entry == |s| + 1 <= RULES
    modifies policy
    ensures Filled(rules, s + [i], policy)
  {
    EntriesPush(rules, s, i);
    policy[entry] := Convert(rules[i], i);
    assert policy[1..entry + 1] == policy[1..entry] + [policy[entry]];
  }

  method EmitKey(rules: seq<Rule>, ghost s: seq<nat>, i: nat, blocked: nat, prefixes: array<Key>, indexes: array<nat>)
    requires i < |rules| && Listed(rules, s, prefixes, indexes) && blocked == |s| < RULES
    modifies prefixes, indexes
    ensures Listed(rules, s + [i], prefixes, indexes)
  {
    KeysPush(rules, s, i);
    prefixes[blocked] := KeyOf(rules[i]);
    indexes[blocked] := i;
    assert prefixes[..blocked + 1] == prefixes[..blocked] + [prefixes[blocked]];
    assert indexes[..blocked + 1] == indexes[..blocked] + [i];
  }

  datatype Fill = Fill(entry: nat, blocked: nat)

  /** The tables when pass `pass` has come to rule `i`. */
  ghost predicate Reached(rules: seq<Rule>, pass: nat, i: nat, fill: Fill,
                          policy: array<Entry>, prefixes: array<Key>, indexes: array<nat>)
    requires i <= |rules|
    reads policy, prefixes, indexes
  {
    && Filled(rules, Visited(rules, pass, i), policy) && fill.entry == |Visited(rules, pass, i)| + 1
    && Listed(rules, Blocks(rules, pass, i), prefixes, indexes) && fill.blocked == |Blocks(rules, pass, i)|
  }

  /** The body of the serializer's inner loop. */
  method Visit(rules: seq<Rule>, pass: nat, i: nat, fill: Fill,
               policy: array<Entry>, prefixes: array<Key>, indexes: array<nat>)
    returns (next: Fill)
    requires i < |rules| <= RULES && pass < 2
    requires Reached(rules, pass, i, fill, policy, prefixes, indexes)
    modifies policy, prefixes, indexes
    ensures Reached(rules, pass, i + 1, next, policy, prefixes, indexes)
  {
    next := fill;
    VisitedStep(rules, pass, i);
    if rules[i].block == (pass == 0) {
      EmitEntry(rules, Visited(rules, pass, i), i, fill.entry, policy);
      next := Fill(fill.entry + 1, fill.blocked);
      if rules[i].block {
        EmitKey(rules, Blocks(rules, pass, i), i, fill.blocked, prefixes, indexes);
        next := Fill(fill.entry + 1, fill.blocked + 1);
      }
    }
  }

  function Verdicts(defaults: seq<bool>): seq<nat>
    requires |defaults| == 2
  {
    [if defaults[0] then ALLOW else DENY, if defaults[1] then ALLOW else DENY]
  }

  /** `prepare`: the policy table, its header, and the source-block prefix table. */
  method Prepare(rules: seq<Rule>, defaults: seq<bool>, policy: array<Entry>, prefixes: array<Key>, indexes: array<nat>)
    returns (header: Header)
    requires |rules| <= RULES && |defaults| == 2
    requires policy.Length == RULES + 1 && prefixes.Length == indexes.Length == RULES
    modifies policy, prefixes, indexes
    ensures policy[1..|rules| + 1] == Table(rules)
    ensures Listed(rules, Chosen(rules, true, |rules|), prefixes, indexes)
    ensures header == Header(|rules|, true, 2, 1, Verdicts(defaults), |Chosen(rules, true, |rules|)|)
  {
    var fill := Fill(1, 0);
    FirstPass(rules, policy, prefixes, indexes);
    for pass := 0 to 2
      invariant pass < 2 ==> Reached(rules, pass, 0, fill, policy, prefixes, indexes)
      invariant pass == 2 ==> Reached(rules, 1, |rules|, fill, policy, prefixes, indexes)
    {
      fill := Serialize(rules, pass, fill, policy, prefixes, indexes);
      if pass == 0 { SecondPass(rules, fill, policy, prefixes, indexes); }
    }
    header := Header(|rules|, true, 2, 1, Verdicts(defaults), fill.blocked);
    Finished(rules, fill, policy, prefixes, indexes);
  }

  /** One pass of the serializer. */
  method Serialize(rules: seq<Rule>, pass: nat, start: Fill,
                   policy: array<Entry>, prefixes: array<Key>, indexes: array<nat>)
    returns (fill: Fill)
    requires |rules| <= RULES && pass < 2
    requires Reached(rules, pass, 0, start, policy, prefixes, indexes)
    modifies policy, prefixes, indexes
    ensures Reached(rules, pass, |rules|, fill, policy, prefixes, indexes)
  {
    fill := start;
    for i := 0 to |rules|
      invariant Reached(rules, pass, i, fill, policy, prefixes, indexes)
    {
      fill := Visit(rules, pass, i, fill, policy, prefixes, indexes);
    }
  }

  lemma {:induction false} FirstPass(rules: seq<Rule>, policy: array<Entry>, prefixes: array<Key>, indexes: array<nat>)
    requires policy.Length == RULES + 1 && prefixes.Length == indexes.Length == RULES
    ensures Reached(rules, 0, 0, Fill(1, 0), policy, prefixes, indexes)
  {
  }

  lemma {:induction false} Finished(rules: seq<Rule>, fill: Fill,
                                    policy: array<Entry>, prefixes: array<Key>, indexes: array<nat>)
    requires Reached(rules, 1, |rules|, fill, policy, prefixes, indexes)
    ensures |rules| <= RULES && policy.Length == RULES + 1 && policy[1..|rules| + 1] == Table(rules)
    ensures Listed(rules, Chosen(rules, true, |rules|), prefixes, indexes)
    ensures fill.blocked == |Chosen(rules, true, |rules|)|
  {
    StablePermutation(rules);
  }

  lemma {:induction false} SecondPass(rules: seq<Rule>, fill: Fill,
                                      policy: array<Entry>, prefixes: array<Key>, indexes: array<nat>)
    requires Reached(rules, 0, |rules|, fill, policy, prefixes, indexes)
    ensures Reached(rules, 1, 0, fill, policy, prefixes, indexes)
  {
    assert Visited(rules, 1, 0) == Visited(rules, 0, |rules|);
  }

  // ----- the policy program

  const DROP := 1
  const PASS := 2

  predicate Usable(header: Header, direction: nat)
  {
    header.ready && header.schema == 2 && header.count <= RULES && 1 <= direction <= 2
  }

  /** The action at entry `k`, or the default past the last one. */
  function ActionAt(table: seq<Entry>, k: nat, fallback: nat): nat
  {
    if k < |table| then table[k].action else fallback
  }

  function Counted(counters: seq<u64>, table: seq<Entry>, k: nat): seq<u64>
  {
    if k < |table| && table[k].index < |counters|
    then counters[table[k].index := Wrap64(counters[table[k].index] as int + 1)]
    else counters
  }

  /** `jordyos_policy` past its enabled test: the bounded walk, counting the rule it stops at. */
  method Walk(header: Header, policy: array<Entry>, ghost table: seq<Entry>, matches: Entry -> bool,
              direction: nat, counters: array<u64>)
    returns (value: nat)
    requires header.count <= RULES < policy.Length ==> table == policy[1..header.count + 1]
    requires policy.Length == RULES + 1 && counters.Length == RULES + 16 && |header.defaults| == 2
    modifies counters
    ensures !Usable(header, direction) ==> value == DROP && counters[..] == old(counters[..])
    ensures Usable(header, direction) ==>
      var k := FirstMatch(table, matches, 0);
      && value == (if ActionAt(table, k, header.defaults[direction - 1]) == ALLOW then PASS else DROP)
      && counters[..] == Counted(old(counters[..]), table, k)
  {
    if !Usable(header, direction) { return DROP; }
    var action := header.defaults[direction - 1];
    var i := 0;
    while i < RULES && i < header.count
      invariant i <= header.count && action == header.defaults[direction - 1] && counters[..] == old(counters[..])
      invariant FirstMatch(table, matches, i) == FirstMatch(table, matches, 0)
    {
      assert table[i] == policy[i + 1];
      if matches(policy[i + 1]) {
        var index := policy[i + 1].index;
        if index < counters.Length { counters[index] := Wrap64(counters[index] as int + 1); }
        action := policy[i + 1].action;
        break;
      }
      i := i + 1;
    }
    value := if action == ALLOW then PASS else DROP;
  }

  // ----- the hit counters

  /** A rule with a run's packet count, cut to 32 bits, added to its hits. */
  function WithHits(rule: Rule, packets: u64): Rule
  {
    rule.(hits := Wrap32(rule.hits as int + packets % 0x1_0000_0000))
  }

  function AddHits(rules: seq<Rule>, counters: seq<u64>): (r: seq<Rule>)
    requires |rules| <= |counters|
    ensures |r| == |rules|
    ensures forall i :: 0 <= i < |rules| ==> r[i] == WithHits(rules[i], counters[i])
  {
    if rules == [] then []
    else
      var n := |rules| - 1;
      AddHits(rules[..n], counters) + [WithHits(rules[n], counters[n])]
  }

  lemma {:induction false} CountedOne(counters: seq<u64>, table: seq<Entry>, k: nat, i: nat)
    requires i < |counters| && forall j :: 0 <= j < |counters| ==> counters[j] == 0
    ensures |Counted(counters, table, k)| == |counters|
    ensures Counted(counters, table, k)[i] == if k < |table| && table[k].index == i then 1 else 0
  {
  }

  lemma {:induction false} NoHit(rule: Rule)
    ensures WithHits(rule, 0) == rule
  {
  }

  /** The deciding rule has one hit more, modulo 2^32; every other rule is as before. */
  ghost predicate OneMore(before: seq<Rule>, after: seq<Rule>, matches: Entry -> bool)
  {
    && |after| == |before|
    && forall i :: 0 <= i < |before| ==>
         after[i] == if Decides(before, matches, i) then WithHits(before[i], 1) else before[i]
  }

  lemma {:induction false} OneHit(rules: seq<Rule>, matches: Entry -> bool, counters: seq<u64>)
    requires |rules| <= |counters| && forall i :: 0 <= i < |counters| ==> counters[i] == 0
    ensures var c := Counted(counters, Table(rules), FirstMatch(Table(rules), matches, 0));
      |c| == |counters| && OneMore(rules, AddHits(rules, c), matches)
  {
    WalkMeaning(rules, matches, false);
    var table := Table(rules);
    var k := FirstMatch(table, matches, 0);
    var c := Counted(counters, table, k);
    forall i | 0 <= i < |rules|
      ensures |c| == |counters| && c[i] == if Decides(rules, matches, i) then 1 else 0
    {
      CountedOne(counters, table, k, i);
      HitIsDecider(rules, matches, i);
    }
    assert rules == [] ==> c == counters;
    forall i | 0 <= i < |rules|
      ensures AddHits(rules, c)[i] == if Decides(rules, matches, i) then WithHits(rules[i], 1) else rules[i]
    {
      NoHit(rules[i]);
    }
  }

  /** What the walk over the serialized table and the counters it leaves mean for the rules. */
  lemma {:induction false} RunMeaning(rules: seq<Rule>, matches: Entry -> bool, fallback: bool, counters: seq<u64>)
    requires |rules| <= |counters| && forall i :: 0 <= i < |counters| ==> counters[i] == 0
    ensures var k := FirstMatch(Table(rules), matches, 0);
      var c := Counted(counters, Table(rules), k);
      && (Allowed(rules, matches, fallback) <==> ActionAt(Table(rules), k, if fallback then ALLOW else DENY) == ALLOW)
      && |c| == |counters| && OneMore(rules, AddHits(rules, c), matches)
  {
    WalkMeaning(rules, matches, fallback);
    OneHit(rules, matches, counters);
  }

  lemma {:induction false} HitIsDecider(rules: seq<Rule>, matches: Entry -> bool, i: nat)
    requires i < |rules|
    ensures |Table(rules)| == |rules|
    ensures var k := FirstMatch(Table(rules), matches, 0);
      Decides(rules, matches, i) <==> k < |rules| && Table(rules)[k].index == i
  {
    WalkMeaning(rules, matches, false);
    var k := FirstMatch(Table(rules), matches, 0);
    if k < |rules| && Decides(rules, matches, i) {
      FirstUnique(rules, matches, Blocked(rules, matches), i, Table(rules)[k].index);
    }
  }

  method Zeroed() returns (counters: array<u64>)
    ensures fresh(counters) && counters.Length == RULES + 16
    ensures forall i :: 0 <= i < counters.Length ==> counters[i] == 0
  {
    counters := new u64[RULES + 16](_ => 0);
  }

  /** The policy program over a prepared table, from zeroed counters. */
  method RunTable(rules: seq<Rule>, defaults: seq<bool>, header: Header, policy: array<Entry>,
                  matches: Entry -> bool, direction: nat)
    returns (value: nat, counters: seq<u64>)
    requires |rules| <= RULES && |defaults| == 2 && policy.Length == RULES + 1
    requires policy[1..|rules| + 1] == Table(rules)
    requires header == Header(|rules|, true, 2, 1, Verdicts(defaults), header.blocks)
    ensures |counters| == RULES + 16
    ensures direction >= 2 ==> value == DROP && AddHits(rules, counters) == rules
    ensures direction < 2 ==>
      && (value == PASS <==> Allowed(rules, matches, defaults[direction]))
      && OneMore(rules, AddHits(rules, counters), matches)
  {
    var stats := Zeroed();
    ghost var zero := stats[..];
    value := Walk(header, policy, Table(rules), matches, direction + 1, stats);
    counters := stats[..];
    if direction < 2 {
      RunMeaning(rules, matches, defaults[direction], zero);
    } else {
      NoHits(rules, zero);
    }
  }

  /** The native firewall and the adapter's static tables. */
  class Adapter {
    var rules: seq<Rule>
    var enabled: bool
    var defaults: seq<bool>
    const policy: array<Entry>
    const prefixes: array<Key>
    const indexes: array<nat>

    predicate Valid()
      reads this
    {
      |defaults| == 2 && policy.Length == RULES + 1 && prefixes.Length == indexes.Length == RULES
    }

    /** `fw_bpf_policy`.  `ready` is the validator's verdict on the programs and `fault` says that the
        interpreter gave up; either drops the packet. */
    method Decide(matches: Entry -> bool, direction: nat, ready: bool, fault: bool) returns (allow: bool)
      requires Valid()
      modifies this`rules, policy, prefixes, indexes
      ensures Valid()
      ensures !ready || |old(rules)| > RULES || fault ==> !allow && rules == old(rules)
      ensures ready && |old(rules)| <= RULES && !fault && !enabled ==> allow && rules == old(rules)
      ensures ready && |old(rules)| <= RULES && !fault && enabled && direction >= 2 ==> !allow && rules == old(rules)
      ensures ready && |old(rules)| <= RULES && !fault && enabled && direction < 2 ==>
        && (allow <==> Allowed(old(rules), matches, defaults[direction]))
        && OneMore(old(rules), rules, matches)
    {
      if !ready || |rules| > RULES { return false; }
      var header := Prepare(rules, defaults, policy, prefixes, indexes);
      if fault { return false; }
      if !enabled { return true; }
      allow := Run(header, matches, direction);
    }

    /** An enabled policy over prepared tables: the walk, then `finish`. */
    method Run(header: Header, matches: Entry -> bool, direction: nat) returns (allow: bool)
      requires Valid() && |rules| <= RULES && policy[1..|rules| + 1] == Table(rules)
      requires header == Header(|rules|, true, 2, 1, Verdicts(defaults), header.blocks)
      modifies this`rules
      ensures direction >= 2 ==> !allow && rules == old(rules)
      ensures direction < 2 ==>
        && (allow <==> Allowed(old(rules), matches, defaults[direction]))
        && OneMore(old(rules), rules, matches)
    {
      var value, counters := RunTable(rules, defaults, header, policy, matches, direction);
      Finish(counters);
      allow := value == PASS;
    }

    /** `finish` on a verdict: the run's counters are added to the rules' hits. */
    method Finish(counters: seq<u64>)
      requires |rules| <= RULES <= |counters|
      modifies this`rules
      ensures rules == AddHits(old(rules), counters)
    {
      ghost var goal := AddHits(rules, counters);
      for i := 0 to |rules|
        invariant |rules| == |old(rules)|
        invariant forall k :: 0 <= k < i ==> rules[k] == goal[k]
        invariant forall k :: i <= k < |rules| ==> rules[k] == old(rules)[k]
      {
        rules := rules[i := WithHits(rules[i], counters[i])];
      }
    }
  }

  lemma {:induction false} NoHits(rules: seq<Rule>, counters: seq<u64>)
    requires |rules| <= |counters| && forall i :: 0 <= i < |counters| ==> counters[i] == 0
    ensures AddHits(rules, counters) == rules
  {
    forall i | 0 <= i < |rules| ensures AddHits(rules, counters)[i] == rules[i] { NoHit(rules[i]); }
  }
}
