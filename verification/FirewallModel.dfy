/** The firewall's rule list, its serialization for the policy program and what a verdict means
    (jordyOS/net/fw_bpf.c and jordyOS/net/bpf/program.bpf.c). */
module FirewallModel {
  import opened Words
  import Packet
  import Cidr

  const RULES := 32

  datatype Rule = Rule(
    source: u32, sourceMask: u32, destination: u32, destinationMask: u32,
    hits: u32, port: u16, protocol: u8, direction: u8, allow: bool, block: bool)

  /** One rule as the policy program sees it. */
  datatype Entry = Entry(
    action: nat, direction: nat, family: nat, protocol: u8, srcBits: nat, dstBits: nat,
    src: seq<u8>, dst: seq<u8>, lowPort: u16, highPort: u16, index: nat)

  const ALLOW := 1
  const DENY := 2
  const BLOCK := 5

  const ZEROES: seq<u8> := [0, 0, 0, 0, 0, 0, 0, 0, 0, 0, 0, 0]

  function Action(rule: Rule): nat
  {
    if rule.block then BLOCK else if rule.allow then ALLOW else DENY
  }

  /** Rule number `i` serialized. */
  function Convert(rule: Rule, i: nat): Entry
  {
    Entry(Action(rule), if rule.block then 0 else rule.direction + 1, 4, rule.protocol,
          Cidr.PrefixLength(rule.sourceMask), Cidr.PrefixLength(rule.destinationMask),
          Packet.Write32(rule.source) + ZEROES, Packet.Write32(rule.destination) + ZEROES,
          rule.port, rule.port, i)
  }

  /** Nothing that matters is lost: addresses, masks, port, protocol, direction and action of a rule
      can be read back from its entry. */
  lemma {:induction false} Recoverable(rule: Rule, i: nat)
    requires Cidr.PrefixMask(rule.sourceMask) && Cidr.PrefixMask(rule.destinationMask)
    ensures var e := Convert(rule, i);
      && |e.src| == |e.dst| == 16 && e.srcBits <= 32 && e.dstBits <= 32
      && Packet.Read32(e.src, 0) == rule.source && Cidr.Mask(e.srcBits) == rule.sourceMask
      && Packet.Read32(e.dst, 0) == rule.destination && Cidr.Mask(e.dstBits) == rule.destinationMask
      && e.lowPort == e.highPort == rule.port && e.protocol == rule.protocol && e.index == i
      && (e.action == BLOCK <==> rule.block)
      && (!rule.block ==> e.direction == rule.direction + 1 && (e.action == ALLOW <==> rule.allow))
  {
    var e := Convert(rule, i);
    Cidr.PrefixMaskLength(rule.sourceMask);
    Cidr.PrefixMaskLength(rule.destinationMask);
    assert e.src[0..4] == Packet.Write32(rule.source);
    Packet.ReadWrite32(e.src, 0, rule.source);
    assert e.dst[0..4] == Packet.Write32(rule.destination);
    Packet.ReadWrite32(e.dst, 0, rule.destination);
  }

  // ----- the two passes

  /** Numbers of the first `n` rules that are blocks, or that are not. */
  function Chosen(rules: seq<Rule>, block: bool, n: nat): seq<nat>
    requires n <= |rules|
  {
    if n == 0 then []
    else if rules[n - 1].block == block then Chosen(rules, block, n - 1) + [n - 1]
    else Chosen(rules, block, n - 1)
  }

  /** The order in which the serializer visits the rules. */
  function Order(rules: seq<Rule>): seq<nat>
  {
    Chosen(rules, true, |rules|) + Chosen(rules, false, |rules|)
  }

  predicate Numbers(rules: seq<Rule>, s: seq<nat>) { forall k :: 0 <= k < |s| ==> s[k] < |rules| }

  function Entries(rules: seq<Rule>, s: seq<nat>): (t: seq<Entry>)
    requires Numbers(rules, s)
    ensures |t| == |s|
    ensures forall k :: 0 <= k < |s| ==> t[k] == Convert(rules[s[k]], s[k])
  {
    if s == [] then []
    else
      var front := s[..|s| - 1];
      assert forall k :: 0 <= k < |front| ==> front[k] == s[k];
      Entries(rules, front) + [Convert(rules[s[|s| - 1]], s[|s| - 1])]
  }

  lemma {:induction false} EntriesPush(rules: seq<Rule>, s: seq<nat>, i: nat)
    requires Numbers(rules, s) && i < |rules|
    ensures Numbers(rules, s + [i])
    ensures Entries(rules, s + [i]) == Entries(rules, s) + [Convert(rules[i], i)]
  {
    assert (s + [i])[..|s|] == s;
  }

  /** Blocks come before ordinary rules; within each kind the list order is kept. */
  predicate Before(rules: seq<Rule>, i: nat, j: nat)
    requires i < |rules| && j < |rules|
  {
    if rules[i].block == rules[j].block then i < j else rules[i].block
  }

  ghost predicate Ascending(s: seq<nat>) { forall j, k :: 0 <= j < k < |s| ==> s[j] < s[k] }

  ghost predicate Selects(rules: seq<Rule>, block: bool, n: nat, s: seq<nat>)
    requires n <= |rules|
  {
    && Ascending(s)
    && (forall k :: 0 <= k < |s| ==> s[k] < n && rules[s[k]].block == block)
    && (forall i :: 0 <= i < n && rules[i].block == block ==> i in s)
  }

  lemma {:induction false} ChosenSelects(rules: seq<Rule>, block: bool, n: nat)
    requires n <= |rules|
    ensures Selects(rules, block, n, Chosen(rules, block, n))
  {
    if n > 0 { ChosenSelects(rules, block, n - 1); }
  }

  lemma {:induction false} ChosenCount(rules: seq<Rule>, n: nat)
    requires n <= |rules|
    ensures |Chosen(rules, true, n)| + |Chosen(rules, false, n)| == n
  {
    if n > 0 { ChosenCount(rules, n - 1); }
  }

  lemma {:induction false} ChosenGrows(rules: seq<Rule>, block: bool, i: nat, n: nat)
    requires i <= n <= |rules|
    ensures |Chosen(rules, block, i)| <= |Chosen(rules, block, n)|
    decreases n
  {
    if i < n { ChosenGrows(rules, block, i, n - 1); }
  }

  ghost predicate Arranged(rules: seq<Rule>, s: seq<nat>)
    requires Numbers(rules, s)
  {
    forall j, k :: 0 <= j < k < |s| ==> Before(rules, s[j], s[k])
  }

  /** The serialized order is a stable permutation: every rule once, blocks first. */
  lemma {:induction false} StablePermutation(rules: seq<Rule>)
    ensures |Order(rules)| == |rules| && Numbers(rules, Order(rules))
    ensures forall i :: 0 <= i < |rules| ==> i in Order(rules)
    ensures Arranged(rules, Order(rules))
  {
    var n := |rules|;
    ChosenCount(rules, n);
    ChosenSelects(rules, true, n);
    ChosenSelects(rules, false, n);
    forall i | 0 <= i < n ensures i in Order(rules) { assert i in Chosen(rules, rules[i].block, n); }
  }

  // ----- the first-match walk

  /** Entry number of the first match, or the table's length. */
  function FirstMatch(table: seq<Entry>, matches: Entry -> bool, k: nat): (r: nat)
    requires k <= |table|
    ensures k <= r <= |table|
    ensures forall j :: k <= j < r ==> !matches(table[j])
    ensures r < |table| ==> matches(table[r])
    decreases |table| - k
  {
    if k == |table| || matches(table[k]) then k else FirstMatch(table, matches, k + 1)
  }

  function Table(rules: seq<Rule>): seq<Entry>
  {
    StablePermutation(rules);
    Entries(rules, Order(rules))
  }

  // ----- what a policy means, without tables

  /** The packet at hand matches rule `i`. */
  predicate Hit(rules: seq<Rule>, matches: Entry -> bool, i: nat)
    requires i < |rules|
  {
    matches(Convert(rules[i], i))
  }

  ghost predicate Blocked(rules: seq<Rule>, matches: Entry -> bool)
  {
    exists i :: 0 <= i < |rules| && rules[i].block && Hit(rules, matches, i)
  }

  /** Rule `i` is the first of its kind that matches. */
  ghost predicate First(rules: seq<Rule>, matches: Entry -> bool, block: bool, i: nat)
  {
    && i < |rules| && rules[i].block == block && Hit(rules, matches, i)
    && forall j :: 0 <= j < i && rules[j].block == block ==> !Hit(rules, matches, j)
  }

  /** The rule that decides: the first matching block, or else the first matching ordinary rule. */
  ghost predicate Decides(rules: seq<Rule>, matches: Entry -> bool, i: nat)
  {
    First(rules, matches, Blocked(rules, matches), i)
  }

  /** Denied if any block matches, else the first ordinary match's action, else the default. */
  ghost predicate Allowed(rules: seq<Rule>, matches: Entry -> bool, fallback: bool)
  {
    && !Blocked(rules, matches)
    && (if exists i: nat :: First(rules, matches, false, i)
        then exists i: nat :: First(rules, matches, false, i) && rules[i].allow
        else fallback)
  }

  lemma {:induction false} FirstUnique(rules: seq<Rule>, matches: Entry -> bool, block: bool, i: nat, j: nat)
    requires First(rules, matches, block, i) && First(rules, matches, block, j)
    ensures i == j
  {
  }

  /** A walk that reaches the end of the table means that no rule matches. */
  lemma {:induction false} WalkNone(rules: seq<Rule>, matches: Entry -> bool)
    requires FirstMatch(Table(rules), matches, 0) == |rules|
    ensures forall i :: 0 <= i < |rules| ==> !Hit(rules, matches, i)
  {
    StablePermutation(rules);
    forall i | 0 <= i < |rules| ensures !Hit(rules, matches, i) {
      assert i in Order(rules);
      var k :| 0 <= k < |rules| && Order(rules)[k] == i;
      assert Table(rules)[k] == Convert(rules[i], i);
    }
  }

  /** The entry a walk stops at comes before every other match. */
  lemma {:induction false} WalkFirst(rules: seq<Rule>, matches: Entry -> bool, k: nat)
    requires k == FirstMatch(Table(rules), matches, 0) < |rules|
    ensures |Order(rules)| == |rules| && Order(rules)[k] < |rules|
    ensures Table(rules)[k] == Convert(rules[Order(rules)[k]], Order(rules)[k])
    ensures Decides(rules, matches, Order(rules)[k])
  {
    StablePermutation(rules);
    var s, t := Order(rules), Table(rules);
    var i := s[k];
    forall j | 0 <= j < |rules| && j != i && Hit(rules, matches, j) ensures Before(rules, i, j) {
      assert j in s;
      var h :| 0 <= h < |s| && s[h] == j;
      assert t[h] == Convert(rules[j], j);
      assert h >= k;
    }
    assert Hit(rules, matches, i);
    assert Blocked(rules, matches) <==> rules[i].block;
  }

  /** The first-match walk over the serialized table has the meaning of the rule list, and the entry
      it stops at names the rule that decided. */
  lemma {:induction false} WalkMeaning(rules: seq<Rule>, matches: Entry -> bool, fallback: bool)
    ensures |Table(rules)| == |rules|
    ensures var k := FirstMatch(Table(rules), matches, 0);
      && (Allowed(rules, matches, fallback) <==> if k < |rules| then Table(rules)[k].action == ALLOW else fallback)
      && (k < |rules| ==> Decides(rules, matches, Table(rules)[k].index))
      && (k == |rules| ==> forall i: nat :: !Decides(rules, matches, i))
  {
    StablePermutation(rules);
    var k := FirstMatch(Table(rules), matches, 0);
    if k == |rules| {
      WalkNone(rules, matches);
    } else {
      WalkFirst(rules, matches, k);
      var i := Order(rules)[k];
      forall j | First(rules, matches, false, j) && !rules[i].block ensures j == i {
        FirstUnique(rules, matches, false, i, j);
      }
    }
  }
}
