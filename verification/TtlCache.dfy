/** The cache of attribute/value pairs with a time to live, generic in the attribute's match relation,
    and the simple cache that it refines. Every operation is one step at one clock reading. */
module TtlCache {
  import opened Common

  datatype Pair<A, V> = Pair(attr: A, value: V, lastUpdated: int)

  /** An expiration of zero means that pairs never expire. */
  predicate Expired<A, V>(expiration: nat, now: int, p: Pair<A, V>) {
    expiration > 0 && now - p.lastUpdated > expiration
  }

  /** Which pairs a pass over the list keeps. */
  datatype Rule<A> = LiveAt(expiration: nat, now: int) | NotMatching(attr: A)

  predicate Keeps<A, V>(matches: (A, A) -> bool, rule: Rule<A>, p: Pair<A, V>) {
    match rule
    case LiveAt(expiration, now) => !Expired(expiration, now, p)
    case NotMatching(attr) => !matches(p.attr, attr)
  }

  function Filter<A, V>(ps: seq<Pair<A, V>>, matches: (A, A) -> bool, rule: Rule<A>): seq<Pair<A, V>> {
    if ps == [] then []
    else if Keeps(matches, rule, ps[0]) then [ps[0]] + Filter(ps[1..], matches, rule)
    else Filter(ps[1..], matches, rule)
  }

  function Unexpired<A, V>(ps: seq<Pair<A, V>>, matches: (A, A) -> bool, expiration: nat, now: int): seq<Pair<A, V>> {
    Filter(ps, matches, LiveAt(expiration, now))
  }

  function WithoutMatches<A, V>(ps: seq<Pair<A, V>>, matches: (A, A) -> bool, attr: A): seq<Pair<A, V>> {
    Filter(ps, matches, NotMatching(attr))
  }

  function FindFirst<A, V>(ps: seq<Pair<A, V>>, matches: (A, A) -> bool, attr: A): Option<Pair<A, V>> {
    if ps == [] then None
    else if matches(ps[0].attr, attr) then Some(ps[0])
    else FindFirst(ps[1..], matches, attr)
  }

  // ----- laws of filtering

  lemma {:induction false} FilterAppend<A, V>(
    ps: seq<Pair<A, V>>, x: Pair<A, V>, matches: (A, A) -> bool, rule: Rule<A>)
    ensures Filter(ps + [x], matches, rule)
         == Filter(ps, matches, rule) + if Keeps(matches, rule, x) then [x] else []
  {
    if ps == [] {
      assert ps + [x] == [x];
    } else {
      assert (ps + [x])[1..] == ps[1..] + [x];
      FilterAppend(ps[1..], x, matches, rule);
    }
  }

  lemma {:induction false} FilterMember<A, V>(
    ps: seq<Pair<A, V>>, matches: (A, A) -> bool, rule: Rule<A>, x: Pair<A, V>)
    ensures x in Filter(ps, matches, rule) <==> x in ps && Keeps(matches, rule, x)
  {
    if ps != [] {
      assert ps == [ps[0]] + ps[1..];
      FilterMember(ps[1..], matches, rule, x);
    }
  }

  lemma FilterHead<A, V>(x: Pair<A, V>, ps: seq<Pair<A, V>>, matches: (A, A) -> bool, rule: Rule<A>)
    ensures Filter([x] + ps, matches, rule)
         == (if Keeps(matches, rule, x) then [x] else []) + Filter(ps, matches, rule)
  {
    assert ([x] + ps)[1..] == ps;
  }

  /** Passes over the list commute. */
  lemma {:induction false} FilterCommute<A, V>(
    ps: seq<Pair<A, V>>, matches: (A, A) -> bool, p: Rule<A>, q: Rule<A>)
    ensures Filter(Filter(ps, matches, p), matches, q) == Filter(Filter(ps, matches, q), matches, p)
  {
    if ps != [] {
      FilterCommute(ps[1..], matches, p, q);
      FilterHead(ps[0], Filter(ps[1..], matches, p), matches, q);
      FilterHead(ps[0], Filter(ps[1..], matches, q), matches, p);
    }
  }

  /** Evicting at an earlier time before evicting at a later one makes no difference. */
  lemma {:induction false} UnexpiredAbsorb<A, V>(
    ps: seq<Pair<A, V>>, matches: (A, A) -> bool, expiration: nat, t: int, now: int)
    requires t <= now
    ensures Unexpired(Unexpired(ps, matches, expiration, t), matches, expiration, now)
         == Unexpired(ps, matches, expiration, now)
  {
    if ps != [] {
      UnexpiredAbsorb(ps[1..], matches, expiration, t, now);
      FilterHead(ps[0], Unexpired(ps[1..], matches, expiration, t), matches, LiveAt(expiration, now));
    }
  }

  /** One step of a pass that has filtered the first k of all pairs and stands at position i. */
  lemma NextPair<A, V>(
    all: seq<Pair<A, V>>, k: nat, pairs: seq<Pair<A, V>>, i: nat, matches: (A, A) -> bool, rule: Rule<A>)
    requires k <= |all| && i < |pairs| && pairs[i..] == all[k..]
    requires pairs[..i] == Filter(all[..k], matches, rule)
    ensures k < |all| && pairs[i + 1..] == all[k + 1..]
    ensures var next := Filter(all[..k + 1], matches, rule);
            if Keeps(matches, rule, pairs[i]) then pairs[..i + 1] == next
            else (pairs[..i] + pairs[i + 1..])[..i] == next && (pairs[..i] + pairs[i + 1..])[i..] == pairs[i + 1..]
  {
    assert |pairs[i..]| == |all[k..]|;
    assert all[k] == all[k..][0] == pairs[i..][0] == pairs[i];
    assert all[..k + 1] == all[..k] + [all[k]];
    FilterAppend(all[..k], all[k], matches, rule);
    assert pairs[i + 1..] == pairs[i..][1..] && all[k + 1..] == all[k..][1..];
    assert pairs[..i + 1] == pairs[..i] + [pairs[i]];
  }

  // ----- the cache

  class Cache<A, V> {
    const matches: (A, A) -> bool
    /** The linked list, newest pair first. */
    var pairs: seq<Pair<A, V>>
    var expiration: nat

    constructor (matches: (A, A) -> bool, expiration: nat)
      ensures this.matches == matches && this.expiration == expiration && pairs == []
    {
      this.matches, this.expiration, pairs := matches, expiration, [];
    }

    /** Unlinks every expired pair. */
    method Evict(now: int)
      modifies this`pairs
      ensures pairs == Unexpired(old(pairs), matches, expiration, now)
    {
      ghost var all, k := pairs, 0;
      ghost var rule := LiveAt(expiration, now);
      var i := 0;
      while i < |pairs|
        invariant 0 <= i <= |pairs| && 0 <= k <= |all|
        invariant pairs[..i] == Filter(all[..k], matches, rule) && pairs[i..] == all[k..]
        decreases |pairs| - i
      {
        NextPair(all, k, pairs, i, matches, rule);
        if Expired(expiration, now, pairs[i]) {
          pairs := pairs[..i] + pairs[i + 1..];
        } else {
          i := i + 1;
        }
        k := k + 1;
      }
      assert pairs[..i] == pairs && all[..k] == all;
    }

    /** Unlinks every pair whose attribute matches. */
    method RemoveMatches(attr: A)
      modifies this`pairs
      ensures pairs == WithoutMatches(old(pairs), matches, attr)
    {
      ghost var all, k := pairs, 0;
      ghost var rule := NotMatching(attr);
      var i := 0;
      while i < |pairs|
        invariant 0 <= i <= |pairs| && 0 <= k <= |all|
        invariant pairs[..i] == Filter(all[..k], matches, rule) && pairs[i..] == all[k..]
        decreases |pairs| - i
      {
        NextPair(all, k, pairs, i, matches, rule);
        if matches(pairs[i].attr, attr) {
          pairs := pairs[..i] + pairs[i + 1..];
        } else {
          i := i + 1;
        }
        k := k + 1;
      }
      assert pairs[..i] == pairs && all[..k] == all;
    }

    /** The first pair in the list whose attribute matches. */
    method FindPair(attr: A) returns (r: Option<Pair<A, V>>)
      ensures r == FindFirst(pairs, matches, attr)
    {
      var i := 0;
      while i < |pairs|
        invariant 0 <= i <= |pairs|
        invariant FindFirst(pairs, matches, attr) == FindFirst(pairs[i..], matches, attr)
      {
        if matches(pairs[i].attr, attr) {
          return Some(pairs[i]);
        }
        assert pairs[i..][1..] == pairs[i + 1..];
        i := i + 1;
      }
      r := None;
    }

    method Get(now: int, attr: A) returns (value: Option<V>)
      modifies this`pairs
      ensures pairs == Step(old(pairs), matches, expiration, GetOp(now, attr))
      ensures value == Reply(old(pairs), matches, expiration, now, attr)
    {
      Evict(now);
      var pair := FindPair(attr);
      value := if pair.Some? then Some(pair.value.value) else None;
    }

    method Add(now: int, attr: A, value: V)
      modifies this`pairs
      ensures pairs == Step(old(pairs), matches, expiration, AddOp(now, attr, value))
    {
      Evict(now);
      RemoveMatches(attr);
      pairs := [Pair(attr, value, now)] + pairs;
    }
  }

  // ----- runs

  datatype Op<A, V> = AddOp(now: int, attr: A, value: V) | GetOp(now: int, attr: A)

  function Step<A, V>(ps: seq<Pair<A, V>>, matches: (A, A) -> bool, expiration: nat, op: Op<A, V>): seq<Pair<A, V>> {
    match op
    case AddOp(now, attr, value) =>
      [Pair(attr, value, now)] + WithoutMatches(Unexpired(ps, matches, expiration, now), matches, attr)
    case GetOp(now, attr) => Unexpired(ps, matches, expiration, now)
  }

  function Reply<A, V>(ps: seq<Pair<A, V>>, matches: (A, A) -> bool, expiration: nat, now: int, attr: A): Option<V> {
    match FindFirst(Unexpired(ps, matches, expiration, now), matches, attr)
    case Some(p) => Some(p.value)
    case None => None
  }

  function Run<A, V>(ops: seq<Op<A, V>>, matches: (A, A) -> bool, expiration: nat): seq<Pair<A, V>> {
    if ops == [] then []
    else Step(Run(ops[..|ops| - 1], matches, expiration), matches, expiration, ops[|ops| - 1])
  }

  /** The simple cache forgets a pair only when a later add matches it. */
  function SimpleStep<A, V>(ps: seq<Pair<A, V>>, matches: (A, A) -> bool, op: Op<A, V>): seq<Pair<A, V>> {
    match op
    case AddOp(now, attr, value) => [Pair(attr, value, now)] + WithoutMatches(ps, matches, attr)
    case GetOp(_, _) => ps
  }

  function SimpleRun<A, V>(ops: seq<Op<A, V>>, matches: (A, A) -> bool): seq<Pair<A, V>> {
    if ops == [] then []
    else SimpleStep(SimpleRun(ops[..|ops| - 1], matches), matches, ops[|ops| - 1])
  }

  /** The clock never runs backwards. */
  ghost predicate Monotone<A, V>(ops: seq<Op<A, V>>) {
    forall i, j :: 0 <= i < j < |ops| ==> ops[i].now <= ops[j].now
  }

  /** Eviction only removes what any later look-up would skip: at every later time the run and the
      simple run have the same unexpired pairs in the same order. */
  lemma {:induction false} EvictionUnobservable<A, V>(
    ops: seq<Op<A, V>>, matches: (A, A) -> bool, expiration: nat, now: int)
    requires Monotone(ops) && (ops != [] ==> ops[|ops| - 1].now <= now)
    ensures Unexpired(Run(ops, matches, expiration), matches, expiration, now)
         == Unexpired(SimpleRun(ops, matches), matches, expiration, now)
  {
    if ops != [] {
      var front, op := ops[..|ops| - 1], ops[|ops| - 1];
      var full, simple := Run(front, matches, expiration), SimpleRun(front, matches);
      EvictionUnobservable(front, matches, expiration, now);
      UnexpiredAbsorb(full, matches, expiration, op.now, now);
      if op.AddOp? {
        var live, other := LiveAt(expiration, now), NotMatching(op.attr);
        var kept := Unexpired(full, matches, expiration, op.now);
        FilterCommute(kept, matches, other, live);
        FilterCommute(simple, matches, other, live);
        FilterHead(PairOf(op), Filter(kept, matches, other), matches, live);
        FilterHead(PairOf(op), Filter(simple, matches, other), matches, live);
      }
    }
  }

  /** Every look-up answers as the simple cache would. */
  lemma LookupRefinesSimple<A, V>(ops: seq<Op<A, V>>, matches: (A, A) -> bool, expiration: nat, now: int, attr: A)
    requires Monotone(ops) && (ops != [] ==> ops[|ops| - 1].now <= now)
    ensures Reply(Run(ops, matches, expiration), matches, expiration, now, attr)
         == Reply(SimpleRun(ops, matches), matches, expiration, now, attr)
  {
    EvictionUnobservable(ops, matches, expiration, now);
  }

  // ----- what survives

  /** The i-th operation is an add and no later add matches it. */
  ghost predicate Survives<A(!new), V(!new)>(ops: seq<Op<A, V>>, matches: (A, A) -> bool, i: nat) {
    && i < |ops| && ops[i].AddOp?
    && forall j :: i < j < |ops| && ops[j].AddOp? ==> !matches(ops[i].attr, ops[j].attr)
  }

  function PairOf<A, V>(op: Op<A, V>): Pair<A, V>
    requires op.AddOp?
  {
    Pair(op.attr, op.value, op.now)
  }

  /** What one more operation does to the survivors. */
  lemma SurvivesStep<A(!new), V(!new)>(ops: seq<Op<A, V>>, matches: (A, A) -> bool, i: nat)
    requires ops != []
    ensures var n, front := |ops| - 1, ops[..|ops| - 1];
            Survives(ops, matches, i) <==>
              if i < n then Survives(front, matches, i) && (ops[n].AddOp? ==> !matches(ops[i].attr, ops[n].attr))
              else i == n && ops[n].AddOp?
  {
    var n, front := |ops| - 1, ops[..|ops| - 1];
    if i < n && Survives(ops, matches, i) {
      forall j | i < j < |front| && front[j].AddOp?
        ensures !matches(front[i].attr, front[j].attr)
      {
        assert front[j] == ops[j];
      }
    }
    if i < n && Survives(front, matches, i) && (ops[n].AddOp? ==> !matches(ops[i].attr, ops[n].attr)) {
      forall j | i < j < |ops| && ops[j].AddOp?
        ensures !matches(ops[i].attr, ops[j].attr)
      {
        if j < n {
          assert front[j] == ops[j];
        }
      }
    }
  }

  lemma {:induction false} SurvivorIsHeld<A(!new), V(!new)>(ops: seq<Op<A, V>>, matches: (A, A) -> bool, i: nat)
    requires Survives(ops, matches, i)
    ensures PairOf(ops[i]) in SimpleRun(ops, matches)
  {
    var n, front := |ops| - 1, ops[..|ops| - 1];
    SurvivesStep(ops, matches, i);
    if i < n {
      SurvivorIsHeld(front, matches, i);
      if ops[n].AddOp? {
        FilterMember(SimpleRun(front, matches), matches, NotMatching(ops[n].attr), PairOf(ops[i]));
      }
    }
  }

  lemma {:induction false} HeldSurvives<A(!new), V(!new)>(
    ops: seq<Op<A, V>>, matches: (A, A) -> bool, p: Pair<A, V>) returns (i: nat)
    requires p in SimpleRun(ops, matches)
    ensures Survives(ops, matches, i) && p == PairOf(ops[i])
  {
    var n, front := |ops| - 1, ops[..|ops| - 1];
    if ops[n].AddOp? {
      FilterMember(SimpleRun(front, matches), matches, NotMatching(ops[n].attr), p);
    }
    if ops[n].AddOp? && p == PairOf(ops[n]) {
      i := n;
    } else {
      i := HeldSurvives(front, matches, p);
    }
    SurvivesStep(ops, matches, i);
  }

  /** The simple cache holds exactly the adds that no later add has displaced. */
  lemma SimpleHoldsSurvivors<A(!new), V(!new)>(ops: seq<Op<A, V>>, matches: (A, A) -> bool, p: Pair<A, V>)
    ensures p in SimpleRun(ops, matches) <==> exists i: nat :: Survives(ops, matches, i) && p == PairOf(ops[i])
  {
    if p in SimpleRun(ops, matches) {
      var i := HeldSurvives(ops, matches, p);
    }
    if i: nat :| Survives(ops, matches, i) && p == PairOf(ops[i]) {
      SurvivorIsHeld(ops, matches, i);
    }
  }

  // ----- pairwise non-matching

  ghost predicate Symmetric<A(!new)>(matches: (A, A) -> bool) {
    forall a, b :: matches(a, b) <==> matches(b, a)
  }

  /** No two cached attributes match. */
  ghost predicate NonMatching<A, V>(ps: seq<Pair<A, V>>, matches: (A, A) -> bool) {
    forall i, j :: 0 <= i < j < |ps| ==> !matches(ps[i].attr, ps[j].attr) && !matches(ps[j].attr, ps[i].attr)
  }

  lemma {:induction false} FilterKeepsNonMatching<A, V>(ps: seq<Pair<A, V>>, matches: (A, A) -> bool, rule: Rule<A>)
    requires NonMatching(ps, matches)
    ensures NonMatching(Filter(ps, matches, rule), matches)
  {
    if ps != [] {
      var rest := Filter(ps[1..], matches, rule);
      FilterKeepsNonMatching(ps[1..], matches, rule);
      forall j | 0 <= j < |rest|
        ensures !matches(ps[0].attr, rest[j].attr) && !matches(rest[j].attr, ps[0].attr)
      {
        FilterMember(ps[1..], matches, rule, rest[j]);
        assert rest[j] in ps[1..];
      }
    }
  }

  /** Putting a pair in front of those it does not match. */
  lemma PrependNonMatching<A, V>(ps: seq<Pair<A, V>>, matches: (A, A) -> bool, p: Pair<A, V>)
    requires NonMatching(ps, matches)
    requires forall a :: a in ps ==> matches(a.attr, p.attr) == matches(p.attr, a.attr)
    ensures NonMatching([p] + WithoutMatches(ps, matches, p.attr), matches)
  {
    var rest := WithoutMatches(ps, matches, p.attr);
    FilterKeepsNonMatching(ps, matches, NotMatching(p.attr));
    forall j | 0 <= j < |rest|
      ensures !matches(rest[j].attr, p.attr) && !matches(p.attr, rest[j].attr)
    {
      FilterMember(ps, matches, NotMatching(p.attr), rest[j]);
    }
  }

  /** Every operation keeps the cached pairs pairwise non-matching. */
  lemma StepKeepsNonMatching<A(!new), V>(ps: seq<Pair<A, V>>, matches: (A, A) -> bool, expiration: nat, op: Op<A, V>)
    requires Symmetric(matches) && NonMatching(ps, matches)
    ensures NonMatching(Step(ps, matches, expiration, op), matches)
  {
    FilterKeepsNonMatching(ps, matches, LiveAt(expiration, op.now));
    if op.AddOp? {
      PrependNonMatching(Unexpired(ps, matches, expiration, op.now), matches, PairOf(op));
    }
  }

  lemma {:induction false} RunNonMatching<A(!new), V>(ops: seq<Op<A, V>>, matches: (A, A) -> bool, expiration: nat)
    requires Symmetric(matches)
    ensures NonMatching(Run(ops, matches, expiration), matches)
  {
    if ops != [] {
      RunNonMatching(ops[..|ops| - 1], matches, expiration);
      StepKeepsNonMatching(Run(ops[..|ops| - 1], matches, expiration), matches, expiration, ops[|ops| - 1]);
    }
  }

  // ----- attributes compared for equality (the collection-info cache)

  /** The most recent add for each key. */
  function Latest<V>(ops: seq<Op<string, V>>): map<string, Pair<string, V>> {
    if ops == [] then map[]
    else
      var op := ops[|ops| - 1];
      var before := Latest(ops[..|ops| - 1]);
      if op.AddOp? then before[op.attr := PairOf(op)] else before
  }

  predicate SameKey(a: string, b: string) {
    a == b
  }

  lemma {:induction false} FindNone<V>(ps: seq<Pair<string, V>>, key: string)
    requires forall i :: 0 <= i < |ps| ==> ps[i].attr != key
    ensures FindFirst(ps, SameKey, key) == None
  {
    if ps != [] {
      FindNone(ps[1..], key);
    }
  }

  /** Filtering a list with one pair per key leaves the pair of a key, if the rule keeps it. */
  lemma {:induction false} FindInFiltered<V>(ps: seq<Pair<string, V>>, key: string, rule: Rule<string>)
    requires NonMatching(ps, SameKey)
    ensures FindFirst(Filter(ps, SameKey, rule), SameKey, key)
         == match FindFirst(ps, SameKey, key)
            case Some(p) => (if Keeps(SameKey, rule, p) then Some(p) else None)
            case None => None
  {
    if ps != [] {
      FindInFiltered(ps[1..], key, rule);
      var rest := Filter(ps[1..], SameKey, rule);
      assert ([ps[0]] + rest)[1..] == rest;
      if ps[0].attr == key {
        FindNone(ps[1..], key);
      }
    }
  }

  lemma {:induction false} FoundHasKey<V>(ps: seq<Pair<string, V>>, key: string)
    ensures FindFirst(ps, SameKey, key).Some? ==> FindFirst(ps, SameKey, key).value.attr == key
  {
    if ps != [] {
      FoundHasKey(ps[1..], key);
    }
  }

  lemma {:induction false} SimpleIsLatest<V>(ops: seq<Op<string, V>>, key: string)
    ensures NonMatching(SimpleRun(ops, SameKey), SameKey)
    ensures FindFirst(SimpleRun(ops, SameKey), SameKey, key)
         == if key in Latest(ops) then Some(Latest(ops)[key]) else None
  {
    if ops != [] {
      var op, before := ops[|ops| - 1], SimpleRun(ops[..|ops| - 1], SameKey);
      SimpleIsLatest(ops[..|ops| - 1], key);
      if op.AddOp? {
        var rest := WithoutMatches(before, SameKey, op.attr);
        PrependNonMatching(before, SameKey, PairOf(op));
        FindInFiltered(before, key, NotMatching(op.attr));
        FoundHasKey(before, key);
        assert ([PairOf(op)] + rest)[1..] == rest;
      }
    }
  }

  /** A look-up by key returns the value of the latest add for the key exactly while that add has not
      expired, after any run of operations. */
  lemma KeyedLookupIsLatest<V>(ops: seq<Op<string, V>>, expiration: nat, now: int, key: string)
    requires Monotone(ops) && (ops != [] ==> ops[|ops| - 1].now <= now)
    ensures Reply(Run(ops, SameKey, expiration), SameKey, expiration, now, key)
         == if key in Latest(ops) && (expiration == 0 || now - Latest(ops)[key].lastUpdated <= expiration)
            then Some(Latest(ops)[key].value) else None
  {
    EvictionUnobservable(ops, SameKey, expiration, now);
    SimpleIsLatest(ops, key);
    FindInFiltered(SimpleRun(ops, SameKey), key, LiveAt(expiration, now));
  }
}
