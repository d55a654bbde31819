/**
  The part of a Linux routing stack that tunnel policy edits: per address family, the list of
  `ip rule` entries in the order the kernel walks them, and the routes of private table 218 in
  metric order. `LookupFrom` is the walk itself; `LookupByPresence` says what it returns in terms of
  which of the four policy steps are installed.
 */
module Kernel {

  type Addr = nat

  const POLICY_TABLE := 218
  const LOCAL_TABLE := 255
  const RULE_PRIORITY := 18000
  const BACKSTOP_PRIORITY := 18500
  const ROUTE_METRIC := 100
  const FLOOR_METRIC := 4000

  datatype Family = V4 | V6

  datatype Source = All | Host(addr: Addr)

  datatype Action = Lookup(table: nat) | Unreachable

  datatype Rule = Rule(priority: nat, source: Source, action: Action)

  datatype Hop = Device(name: string) | Refuse

  datatype Route = Route(metric: nat, hop: Hop)

  /** One address family: rules in walking order, table 218 in metric order. */
  datatype Stack = Stack(rules: seq<Rule>, table: seq<Route>)

  datatype Machine = Machine(v4: Stack, v6: Stack) {
    function Of(f: Family): Stack {
      if f.V4? then v4 else v6
    }

    function With(f: Family, s: Stack): Machine {
      if f.V4? then this.(v4 := s) else this.(v6 := s)
    }
  }

  /** Where a packet from the tun address goes: a device, an error, or any table that is not ours. */
  datatype Verdict = Via(device: string) | Refused | Main

  // ----- ordered lists -------------------------------------------------------------------------

  function Insert<T>(s: seq<T>, x: T, key: T -> nat): seq<T> {
    if s == [] || key(x) < key(s[0]) then [x] + s
    else [s[0]] + Insert(s[1..], x, key)
  }

  function RemoveFirst<T>(s: seq<T>, p: T -> bool): seq<T> {
    if s == [] then []
    else if p(s[0]) then s[1..]
    else [s[0]] + RemoveFirst(s[1..], p)
  }

  function Count<T>(s: seq<T>, p: T -> bool): nat {
    if s == [] then 0 else (if p(s[0]) then 1 else 0) + Count(s[1..], p)
  }

  ghost predicate Sorted<T>(s: seq<T>, key: T -> nat) {
    s == [] || ((forall y :: y in s[1..] ==> key(s[0]) <= key(y)) && Sorted(s[1..], key))
  }

  lemma {:induction false} InsertMembers<T>(s: seq<T>, x: T, key: T -> nat)
    ensures forall y :: y in Insert(s, x, key) <==> y == x || y in s
  {
    if s != [] && key(x) >= key(s[0]) {
      InsertMembers(s[1..], x, key);
      assert s == [s[0]] + s[1..];
    }
  }

  lemma {:induction false} InsertSorted<T>(s: seq<T>, x: T, key: T -> nat)
    requires Sorted(s, key)
    ensures Sorted(Insert(s, x, key), key)
  {
    if s != [] && key(x) >= key(s[0]) {
      InsertSorted(s[1..], x, key);
      InsertMembers(s[1..], x, key);
      assert Insert(s, x, key)[1..] == Insert(s[1..], x, key);
    } else {
      assert ([x] + s)[1..] == s;
    }
  }

  lemma {:induction false} InsertCount<T>(s: seq<T>, x: T, key: T -> nat, p: T -> bool)
    ensures Count(Insert(s, x, key), p) == Count(s, p) + if p(x) then 1 else 0
  {
    if s == [] || key(x) < key(s[0]) {
      assert ([x] + s)[1..] == s;
    } else {
      InsertCount(s[1..], x, key, p);
      assert ([s[0]] + Insert(s[1..], x, key))[1..] == Insert(s[1..], x, key);
    }
  }

  lemma {:induction false} RemoveMembers<T>(s: seq<T>, p: T -> bool)
    ensures forall y :: y in RemoveFirst(s, p) ==> y in s
    ensures forall y :: y in s && !p(y) ==> y in RemoveFirst(s, p)
    ensures |RemoveFirst(s, p)| <= |s|
  {
    if s != [] && !p(s[0]) {
      RemoveMembers(s[1..], p);
    }
  }

  lemma {:induction false} RemoveSorted<T>(s: seq<T>, p: T -> bool, key: T -> nat)
    requires Sorted(s, key)
    ensures Sorted(RemoveFirst(s, p), key)
  {
    if s != [] && !p(s[0]) {
      RemoveSorted(s[1..], p, key);
      RemoveMembers(s[1..], p);
      assert RemoveFirst(s, p)[1..] == RemoveFirst(s[1..], p);
    }
  }

  /** Deleting by `p` takes one copy of `p`'s; anything disjoint from `p` keeps its count. */
  lemma {:induction false} RemoveCount<T>(s: seq<T>, p: T -> bool, q: T -> bool)
    requires (forall y :: y in s && p(y) ==> q(y)) || (forall y :: y in s && p(y) ==> !q(y))
    ensures Count(RemoveFirst(s, p), q) ==
            if (exists y :: y in s && p(y) && q(y)) then Count(s, q) - 1 else Count(s, q)
  {
    if s != [] {
      assert s == [s[0]] + s[1..];
      if p(s[0]) {
        assert s[0] in s;
      } else {
        RemoveCount(s[1..], p, q);
        var r := RemoveFirst(s[1..], p);
        assert ([s[0]] + r)[1..] == r;
        if exists y :: y in s && p(y) && q(y) {
          var y :| y in s && p(y) && q(y);
          assert y in s[1..];
        }
      }
    }
  }

  lemma {:induction false} CountPositive<T>(s: seq<T>, p: T -> bool)
    ensures Count(s, p) > 0 <==> exists y :: y in s && p(y)
  {
    if s != [] {
      CountPositive(s[1..], p);
      assert s == [s[0]] + s[1..];
      if p(s[0]) {
        assert s[0] in s;
      }
    }
  }

  lemma {:induction false} RemoveAbsent<T>(s: seq<T>, p: T -> bool)
    requires forall y :: y in s ==> !p(y)
    ensures RemoveFirst(s, p) == s
  {
    if s != [] {
      assert s[0] in s;
      RemoveAbsent(s[1..], p);
    }
  }

  // ----- the policy route lookup ---------------------------------------------------------------

  predicate Matches(r: Rule, addr: Addr) {
    r.source.All? || r.source == Host(addr)
  }

  /**
    The kernel's rule walk for a remote destination. A lookup in the local table or in an empty
    table 218 falls through to the next rule; a matched `unreachable` ends the walk.
   */
  function Walk(rules: seq<Rule>, table: seq<Route>, addr: Addr): Verdict {
    if rules == [] then Main
    else if !Matches(rules[0], addr) then Walk(rules[1..], table, addr)
    else match rules[0].action
      case Unreachable => Refused
      case Lookup(t) =>
        if t == LOCAL_TABLE || (t == POLICY_TABLE && table == []) then Walk(rules[1..], table, addr)
        else if t == POLICY_TABLE then HopVerdict(table[0].hop)
        else Main
  }

  function HopVerdict(h: Hop): Verdict {
    match h
    case Device(d) => Via(d)
    case Refuse => Refused
  }

  function LookupFrom(s: Stack, addr: Addr): Verdict {
    Walk(s.rules, s.table, addr)
  }

  // ----- what tunnel policy installs -----------------------------------------------------------

  function BackstopRule(addr: Addr): Rule { Rule(BACKSTOP_PRIORITY, Host(addr), Unreachable) }

  function PolicyRule(addr: Addr): Rule { Rule(RULE_PRIORITY, Host(addr), Lookup(POLICY_TABLE)) }

  function FloorRoute(): Route { Route(FLOOR_METRIC, Refuse) }

  function TunnelRoute(device: string): Route { Route(ROUTE_METRIC, Device(device)) }

  predicate Ours(r: Rule, addr: Addr) {
    r == BackstopRule(addr) || r == PolicyRule(addr)
  }

  function PriorityOf(r: Rule): nat { r.priority }

  function MetricOf(x: Route): nat { x.metric }

  /** A rule that leaves the tun address to us: it outranks the backstop, or uses table 218, only if it is ours. */
  predicate Governed(r: Rule, addr: Addr) {
    Matches(r, addr) && !Ours(r, addr) ==>
      && (r.priority <= BACKSTOP_PRIORITY ==> r.action == Lookup(LOCAL_TABLE))
      && r.action != Lookup(POLICY_TABLE)
  }

  /**
    The machine is one our policy can govern: rules and routes are in kernel order, no foreign rule
    that takes the tun address outranks the backstop, and table 218 holds nothing but our routes.
   */
  ghost predicate Tidy(s: Stack, addr: Addr, device: string) {
    && Sorted(s.rules, PriorityOf)
    && Sorted(s.table, MetricOf)
    && (forall r :: r in s.rules ==> Governed(r, addr))
    && (forall x :: x in s.table ==> x == FloorRoute() || x == TunnelRoute(device))
  }

  function Others(rules: seq<Rule>, addr: Addr): seq<Rule> {
    if rules == [] then []
    else if Ours(rules[0], addr) then Others(rules[1..], addr)
    else [rules[0]] + Others(rules[1..], addr)
  }

  /** What the machine would answer for the tun address if no policy step had ever been installed. */
  function Unprotected(s: Stack, addr: Addr): Verdict {
    Walk(Others(s.rules, addr), [], addr)
  }

  /** The table half: metric order makes the tunnel route win over the floor. */
  lemma TableHead(s: Stack, addr: Addr, device: string)
    requires Tidy(s, addr, device) && s.table != []
    ensures HopVerdict(s.table[0].hop) ==
            if TunnelRoute(device) in s.table then Via(device) else Refused
    ensures TunnelRoute(device) in s.table || FloorRoute() in s.table
  {
    assert s.table == [s.table[0]] + s.table[1..];
    assert s.table[0] in s.table;
    assert MetricOf(TunnelRoute(device)) < MetricOf(FloorRoute());
  }

  lemma {:induction false} WalkByPresence(rules: seq<Rule>, table: seq<Route>, addr: Addr)
    requires Sorted(rules, PriorityOf)
    requires forall r :: r in rules ==> Governed(r, addr)
    ensures Walk(rules, table, addr) ==
            if PolicyRule(addr) in rules && table != [] then HopVerdict(table[0].hop)
            else if BackstopRule(addr) in rules then Refused
            else Walk(Others(rules, addr), [], addr)
  {
    if rules != [] {
      var head, tail := rules[0], rules[1..];
      assert rules == [head] + tail;
      WalkByPresence(tail, table, addr);
      assert head in rules;
      if Ours(head, addr) {
        assert PolicyRule(addr) in tail ==> PriorityOf(head) <= PriorityOf(PolicyRule(addr));
      } else {
        var rest := Others(tail, addr);
        assert Others(rules, addr) == [head] + rest && ([head] + rest)[1..] == rest;
        if Matches(head, addr) && head.priority > BACKSTOP_PRIORITY {
          assert PolicyRule(addr) in tail ==> PriorityOf(head) <= PriorityOf(PolicyRule(addr));
          assert BackstopRule(addr) in tail ==> PriorityOf(head) <= PriorityOf(BackstopRule(addr));
        }
      }
    }
  }

  /**
    The lookup, decided by which of the four steps are present. The last line is the exact leak
    condition: the address is unprotected precisely when the backstop is gone and the policy rule
    leads into an empty table or is gone too.
   */
  lemma LookupByPresence(s: Stack, addr: Addr, device: string)
    requires Tidy(s, addr, device)
    ensures LookupFrom(s, addr) ==
            if PolicyRule(addr) in s.rules && TunnelRoute(device) in s.table then Via(device)
            else if PolicyRule(addr) in s.rules && FloorRoute() in s.table then Refused
            else if BackstopRule(addr) in s.rules then Refused
            else Unprotected(s, addr)
  {
    WalkByPresence(s.rules, s.table, addr);
    if s.table != [] {
      TableHead(s, addr, device);
    }
  }

  lemma TidyRules(s: Stack, addr: Addr, device: string, r: Rule, p: Rule -> bool)
    requires Tidy(s, addr, device) && Governed(r, addr)
    ensures Tidy(s.(rules := Insert(s.rules, r, PriorityOf)), addr, device)
    ensures Tidy(s.(rules := RemoveFirst(s.rules, p)), addr, device)
  {
    InsertMembers(s.rules, r, PriorityOf);
    InsertSorted(s.rules, r, PriorityOf);
    RemoveMembers(s.rules, p);
    RemoveSorted(s.rules, p, PriorityOf);
  }

  lemma TidyRoutes(s: Stack, addr: Addr, device: string, x: Route, p: Route -> bool)
    requires Tidy(s, addr, device) && (x == FloorRoute() || x == TunnelRoute(device))
    ensures Tidy(s.(table := Insert(s.table, x, MetricOf)), addr, device)
    ensures Tidy(s.(table := RemoveFirst(s.table, p)), addr, device)
  {
    InsertMembers(s.table, x, MetricOf);
    InsertSorted(s.table, x, MetricOf);
    RemoveMembers(s.table, p);
    RemoveSorted(s.table, p, MetricOf);
  }
}
