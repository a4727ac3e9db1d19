/** The key cache: attributes match on the key id or on a common alternate name. */
module KeyCache {
  import opened Common
  import opened TtlCache

  datatype KeyAttr = KeyAttr(id: Option<bytes>, altNames: seq<string>)

  /** A key attribute carries an id, or alternate names, or both. */
  predicate ValidAttr(a: KeyAttr) {
    a.id.Some? || a.altNames != []
  }

  predicate Intersects(a: seq<string>, b: seq<string>) {
    exists x :: x in a && x in b
  }

  predicate KeyMatches(a: KeyAttr, b: KeyAttr) {
    || (a.id.Some? && b.id.Some? && a.id.value == b.id.value)
    || Intersects(a.altNames, b.altNames)
  }

  /** Compares the two lists of names pairwise. */
  method AltNamesIntersect(a: seq<string>, b: seq<string>) returns (r: bool)
    ensures r <==> Intersects(a, b)
  {
    var i := 0;
    while i < |a|
      invariant 0 <= i <= |a|
      invariant forall x :: x in a[..i] ==> x !in b
    {
      var j := 0;
      while j < |b|
        invariant 0 <= j <= |b|
        invariant a[i] !in b[..j]
      {
        if a[i] == b[j] {
          assert a[i] in a && a[i] in b;
          return true;
        }
        j := j + 1;
      }
      assert b[..j] == b;
      assert a[..i + 1] == a[..i] + [a[i]];
      i := i + 1;
    }
    assert a[..i] == a;
    r := false;
  }

  lemma KeyMatchesSymmetric()
    ensures Symmetric(KeyMatches)
  {
  }

  /** Two keys that do not match can both match a third. */
  lemma KeyMatchesNotTransitive()
    ensures exists a, b, c ::
              ValidAttr(a) && ValidAttr(b) && ValidAttr(c) && KeyMatches(a, b) && KeyMatches(b, c) && !KeyMatches(a, c)
  {
    var a, c := KeyAttr(Some([1]), []), KeyAttr(None, ["name"]);
    var b := KeyAttr(Some([1]), ["name"]);
    assert "name" in b.altNames && "name" in c.altNames;
    assert KeyMatches(a, b) && KeyMatches(b, c) && !KeyMatches(a, c);
  }

  /** A look-up attribute that carries at most one id or distinct alternate name. */
  predicate SingleKey(q: KeyAttr) {
    && (q.id.Some? ==> q.altNames == [])
    && forall i, j :: 0 <= i < j < |q.altNames| ==> q.altNames[i] == q.altNames[j]
  }

  /** Attributes that match one single key match each other. */
  lemma SingleKeyTransitive(a: KeyAttr, b: KeyAttr, q: KeyAttr)
    requires SingleKey(q) && KeyMatches(a, q) && KeyMatches(b, q)
    ensures KeyMatches(a, b)
  {
    if q.id.None? {
      var x :| x in a.altNames && x in q.altNames;
      var y :| y in b.altNames && y in q.altNames;
      assert x == q.altNames[0] == y;
    }
  }

  /** After any run, a look-up by one id or one name has at most one candidate, so it does not depend
      on the order of the list. */
  lemma SingleLookupUnique<V>(ops: seq<Op<KeyAttr, V>>, expiration: nat, q: KeyAttr, i: nat, j: nat)
    requires SingleKey(q)
    requires var ps := Run(ops, KeyMatches, expiration);
             i < |ps| && j < |ps| && KeyMatches(ps[i].attr, q) && KeyMatches(ps[j].attr, q)
    ensures i == j
  {
    var ps := Run(ops, KeyMatches, expiration);
    KeyMatchesSymmetric();
    RunNonMatching(ops, KeyMatches, expiration);
    SingleKeyTransitive(ps[i].attr, ps[j].attr, q);
  }

  lemma {:induction false} FoundMatches<V>(ps: seq<Pair<KeyAttr, V>>, q: KeyAttr, p: Pair<KeyAttr, V>)
    requires p in ps && KeyMatches(p.attr, q)
    ensures FindFirst(ps, KeyMatches, q).Some?
    ensures FindFirst(ps, KeyMatches, q).value in ps && KeyMatches(FindFirst(ps, KeyMatches, q).value.attr, q)
  {
    assert ps == [ps[0]] + ps[1..];
    if !KeyMatches(ps[0].attr, q) {
      FoundMatches(ps[1..], q, p);
    }
  }

  /** A look-up by one id or one name finds the key of an add that has that id or name, has not
      expired, and was not displaced by a later matching add. */
  lemma KeyLookupFindsSurvivor<V(!new)>(
    ops: seq<Op<KeyAttr, V>>, expiration: nat, now: int, q: KeyAttr, i: nat)
    requires Monotone(ops) && (ops != [] ==> ops[|ops| - 1].now <= now)
    requires SingleKey(q) && Survives(ops, KeyMatches, i) && KeyMatches(ops[i].attr, q)
    requires !Expired(expiration, now, PairOf(ops[i]))
    ensures Reply(Run(ops, KeyMatches, expiration), KeyMatches, expiration, now, q) == Some(ops[i].value)
  {
    var p, simple := PairOf(ops[i]), SimpleRun(ops, KeyMatches);
    var live := LiveAt(expiration, now);
    SimpleHoldsSurvivors(ops, KeyMatches, p);
    EvictionUnobservable(ops, KeyMatches, expiration, now);
    FilterMember(simple, KeyMatches, live, p);
    var kept := Unexpired(simple, KeyMatches, expiration, now);
    FoundMatches(kept, q, p);
    var found := FindFirst(kept, KeyMatches, q).value;
    SingleKeyTransitive(found.attr, p.attr, q);
    KeyMatchesSymmetric();
    RunNonMatching(ops, KeyMatches, expiration);
    FilterKeepsNonMatching(Run(ops, KeyMatches, expiration), KeyMatches, live);
    var a :| 0 <= a < |kept| && kept[a] == found;
    var b :| 0 <= b < |kept| && kept[b] == p;
    assert a == b;
  }

  lemma {:induction false} FoundIsMember<V>(ps: seq<Pair<KeyAttr, V>>, q: KeyAttr)
    ensures var r := FindFirst(ps, KeyMatches, q); r.Some? ==> r.value in ps && KeyMatches(r.value.attr, q)
  {
    if ps != [] {
      FoundIsMember(ps[1..], q);
    }
  }

  /** The i-th operation added a key that has the id or name, has not expired and was not displaced. */
  ghost predicate Findable<V(!new)>(ops: seq<Op<KeyAttr, V>>, expiration: nat, now: int, q: KeyAttr, i: nat) {
    && Survives(ops, KeyMatches, i)
    && KeyMatches(ops[i].attr, q)
    && !Expired(expiration, now, PairOf(ops[i]))
  }

  /** Such a look-up answers with a value exactly when it is that of such an add. */
  lemma KeyLookupIff<V(!new)>(ops: seq<Op<KeyAttr, V>>, expiration: nat, now: int, q: KeyAttr, value: V)
    requires Monotone(ops) && (ops != [] ==> ops[|ops| - 1].now <= now) && SingleKey(q)
    ensures Reply(Run(ops, KeyMatches, expiration), KeyMatches, expiration, now, q) == Some(value) <==>
            exists i: nat :: Findable(ops, expiration, now, q, i) && ops[i].value == value
  {
    var simple, live := SimpleRun(ops, KeyMatches), LiveAt(expiration, now);
    var kept := Unexpired(simple, KeyMatches, expiration, now);
    EvictionUnobservable(ops, KeyMatches, expiration, now);
    var found := FindFirst(kept, KeyMatches, q);
    if found.Some? && found.value.value == value {
      FoundIsMember(kept, q);
      FilterMember(simple, KeyMatches, live, found.value);
      var i := HeldSurvives(ops, KeyMatches, found.value);
      assert Findable(ops, expiration, now, q, i) && ops[i].value == value;
    }
    if i: nat :| Findable(ops, expiration, now, q, i) && ops[i].value == value {
      KeyLookupFindsSurvivor(ops, expiration, now, q, i);
    }
  }

  /** It finds nothing exactly when there is no such add. */
  lemma KeyLookupNone<V(!new)>(ops: seq<Op<KeyAttr, V>>, expiration: nat, now: int, q: KeyAttr)
    requires Monotone(ops) && (ops != [] ==> ops[|ops| - 1].now <= now) && SingleKey(q)
    ensures Reply(Run(ops, KeyMatches, expiration), KeyMatches, expiration, now, q) == None <==>
            forall i: nat :: !Findable(ops, expiration, now, q, i)
  {
    var reply := Reply(Run(ops, KeyMatches, expiration), KeyMatches, expiration, now, q);
    if reply.Some? {
      KeyLookupIff(ops, expiration, now, q, reply.value);
    }
    if i: nat :| Findable(ops, expiration, now, q, i) {
      KeyLookupIff(ops, expiration, now, q, ops[i].value);
    }
  }

  // ----- look-ups by their ids and names

  /** A later add of the same id, or of a common name, takes the place of the i-th operation's key. */
  ghost predicate Displaced<V(!new)>(ops: seq<Op<KeyAttr, V>>, i: nat)
    requires i < |ops|
  {
    exists j :: i < j < |ops| && ops[j].AddOp?
      && (|| (ops[j].attr.id.Some? && ops[j].attr.id == ops[i].attr.id)
          || exists name :: name in ops[j].attr.altNames && name in ops[i].attr.altNames)
  }

  /** The i-th operation added a key with this value that has neither been displaced nor expired. */
  ghost predicate Holds<V(!new)>(ops: seq<Op<KeyAttr, V>>, expiration: nat, now: int, i: nat, value: V) {
    && i < |ops| && ops[i].AddOp? && ops[i].value == value
    && !Displaced(ops, i)
    && (expiration == 0 || now - ops[i].now <= expiration)
  }

  lemma SurvivesIffNotDisplaced<V(!new)>(ops: seq<Op<KeyAttr, V>>, i: nat)
    requires i < |ops| && ops[i].AddOp?
    ensures Survives(ops, KeyMatches, i) <==> !Displaced(ops, i)
  {
    forall j | i < j < |ops| && ops[j].AddOp?
      ensures KeyMatches(ops[i].attr, ops[j].attr) <==>
              || (ops[j].attr.id.Some? && ops[j].attr.id == ops[i].attr.id)
              || exists name :: name in ops[j].attr.altNames && name in ops[i].attr.altNames
    {
    }
  }

  lemma FindableIff<V(!new)>(ops: seq<Op<KeyAttr, V>>, expiration: nat, now: int, q: KeyAttr, i: nat, value: V)
    ensures Findable(ops, expiration, now, q, i) && ops[i].value == value <==>
            Holds(ops, expiration, now, i, value) && KeyMatches(ops[i].attr, q)
  {
    if i < |ops| && ops[i].AddOp? {
      SurvivesIffNotDisplaced(ops, i);
    }
  }

  /** In every run, a look-up by an id answers exactly with the key that was added with this very id. */
  lemma LookupById<V(!new)>(ops: seq<Op<KeyAttr, V>>, expiration: nat, now: int, id: bytes, value: V)
    requires Monotone(ops) && (ops != [] ==> ops[|ops| - 1].now <= now)
    ensures Reply(Run(ops, KeyMatches, expiration), KeyMatches, expiration, now, KeyAttr(Some(id), [])) == Some(value)
            <==> exists i: nat :: Holds(ops, expiration, now, i, value) && ops[i].attr.id == Some(id)
  {
    var q := KeyAttr(Some(id), []);
    KeyLookupIff(ops, expiration, now, q, value);
    forall i: nat
      ensures Findable(ops, expiration, now, q, i) && ops[i].value == value <==>
              Holds(ops, expiration, now, i, value) && ops[i].attr.id == Some(id)
    {
      FindableIff(ops, expiration, now, q, i, value);
    }
  }

  /** And a look-up by a name exactly with the key that was added with this name among its own. */
  lemma LookupByName<V(!new)>(ops: seq<Op<KeyAttr, V>>, expiration: nat, now: int, name: string, value: V)
    requires Monotone(ops) && (ops != [] ==> ops[|ops| - 1].now <= now)
    ensures Reply(Run(ops, KeyMatches, expiration), KeyMatches, expiration, now, KeyAttr(None, [name])) == Some(value)
            <==> exists i: nat :: Holds(ops, expiration, now, i, value) && name in ops[i].attr.altNames
  {
    var q := KeyAttr(None, [name]);
    KeyLookupIff(ops, expiration, now, q, value);
    forall i: nat
      ensures Findable(ops, expiration, now, q, i) && ops[i].value == value <==>
              Holds(ops, expiration, now, i, value) && name in ops[i].attr.altNames
    {
      FindableIff(ops, expiration, now, q, i, value);
      assert name in q.altNames;
    }
  }

  // ----- look-ups by several

  /** Two keys that match the look-up attribute but not each other, if it carries more than one. */
  lemma TwoKeysMatch(q: KeyAttr) returns (a: KeyAttr, b: KeyAttr)
    requires !SingleKey(q)
    ensures ValidAttr(a) && ValidAttr(b) && KeyMatches(a, q) && KeyMatches(b, q)
    ensures !KeyMatches(a, b) && !KeyMatches(b, a)
  {
    if q.id.Some? && q.altNames != [] {
      a, b := KeyAttr(q.id, []), KeyAttr(None, [q.altNames[0]]);
      assert q.altNames[0] in b.altNames && q.altNames[0] in q.altNames;
    } else {
      var i, j :| 0 <= i < j < |q.altNames| && q.altNames[i] != q.altNames[j];
      a, b := KeyAttr(None, [q.altNames[i]]), KeyAttr(None, [q.altNames[j]]);
      assert q.altNames[i] in a.altNames && q.altNames[j] in b.altNames;
    }
  }

  /** Adding two keys that do not match leaves both cached, the later one first. */
  lemma TwoAdds<V>(a: KeyAttr, b: KeyAttr, v: V, w: V, now: int, expiration: nat)
    requires !KeyMatches(a, b)
    ensures Run([AddOp(now, a, v), AddOp(now, b, w)], KeyMatches, expiration) == [Pair(b, w, now), Pair(a, v, now)]
  {
    var first, second, x := AddOp(now, a, v), AddOp(now, b, w), Pair(a, v, now);
    var none: seq<Pair<KeyAttr, V>> := [];
    assert [first, second][..1] == [first] && [first][..0] == [];
    assert [x] + none == [x];
    assert Run([first], KeyMatches, expiration) == [x];
    FilterHead(x, none, KeyMatches, LiveAt(expiration, now));
    FilterHead(x, none, KeyMatches, NotMatching(b));
  }

  /** In every run at most one cached pair matches. */
  ghost predicate UniqueInEveryRun<V(!new)>(q: KeyAttr) {
    forall ops: seq<Op<KeyAttr, V>>, expiration: nat, i: nat, j: nat ::
      var ps := Run(ops, KeyMatches, expiration);
      i < |ps| && j < |ps| && KeyMatches(ps[i].attr, q) && KeyMatches(ps[j].attr, q) ==> i == j
  }

  /** This is so exactly for look-ups that carry at most one id or distinct name. */
  lemma UniqueIffSingleKey<V(!new)>(q: KeyAttr, v: V)
    ensures UniqueInEveryRun<V>(q) <==> SingleKey(q)
  {
    if SingleKey(q) {
      forall ops: seq<Op<KeyAttr, V>>, expiration: nat, i: nat, j: nat
        ensures var ps := Run(ops, KeyMatches, expiration);
                i < |ps| && j < |ps| && KeyMatches(ps[i].attr, q) && KeyMatches(ps[j].attr, q) ==> i == j
      {
        var ps := Run(ops, KeyMatches, expiration);
        if i < |ps| && j < |ps| && KeyMatches(ps[i].attr, q) && KeyMatches(ps[j].attr, q) {
          SingleLookupUnique(ops, expiration, q, i, j);
        }
      }
    } else {
      var a, b := TwoKeysMatch(q);
      var ops := [AddOp(0, a, v), AddOp(0, b, v)];
      TwoAdds(a, b, v, v, 0, 0);
      assert KeyMatches(Run(ops, KeyMatches, 0)[0].attr, q) && KeyMatches(Run(ops, KeyMatches, 0)[1].attr, q);
    }
  }

  /** Any other look-up can depend on the order of the adds: two keys answer it, and the later one wins. */
  lemma OtherLookupsDependOnOrder<V(!new)>(q: KeyAttr, v: V, w: V, expiration: nat) returns (a: KeyAttr, b: KeyAttr)
    requires !SingleKey(q)
    ensures ValidAttr(a) && ValidAttr(b)
    ensures var ps := Run([AddOp(0, a, v), AddOp(0, b, w)], KeyMatches, expiration);
            Reply(ps, KeyMatches, expiration, 0, q) == Some(w)
    ensures var ps := Run([AddOp(0, b, w), AddOp(0, a, v)], KeyMatches, expiration);
            Reply(ps, KeyMatches, expiration, 0, q) == Some(v)
  {
    a, b := TwoKeysMatch(q);
    TwoAdds(a, b, v, w, 0, expiration);
    TwoAdds(b, a, w, v, 0, expiration);
  }
}
