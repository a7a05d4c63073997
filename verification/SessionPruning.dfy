/** The sessions a limit pushes out: all but the first `keep` of a scope, most recently seen first,
    then most recently created, then by id. */
module SessionPruning {
  import opened CodePointOrder

  type Id = string
  type Time = int

  datatype Stamp = Stamp(lastSeenAt: Time, createdAt: Time)

  type Scope = map<Id, Stamp>

  predicate Ahead(a: Stamp, x: Id, b: Stamp, y: Id) {
    || a.lastSeenAt > b.lastSeenAt
    || (a.lastSeenAt == b.lastSeenAt
        && (a.createdAt > b.createdAt || (a.createdAt == b.createdAt && LexLess(y, x))))
  }

  /** x comes before y in the descending order. */
  predicate Before(scope: Scope, x: Id, y: Id)
    requires x in scope && y in scope
  {
    Ahead(scope[x], x, scope[y], y)
  }

  lemma BeforeStrict(scope: Scope, x: Id, y: Id)
    requires x in scope && y in scope
    ensures x != y ==> Before(scope, x, y) || Before(scope, y, x)
    ensures !(Before(scope, x, y) && Before(scope, y, x))
  {
    LexConnected(x, y);
    LexIrreflexive(x);
    if LexLess(x, y) && LexLess(y, x) {
      LexTransitive(x, y, x);
    }
  }

  lemma BeforeTransitive(scope: Scope, x: Id, y: Id, z: Id)
    requires x in scope && y in scope && z in scope && Before(scope, x, y) && Before(scope, y, z)
    ensures Before(scope, x, z)
  {
    if LexLess(z, y) && LexLess(y, x) {
      LexTransitive(z, y, x);
    }
  }

  function Preceding(scope: Scope, x: Id): set<Id>
    requires x in scope
  {
    set y | y in scope && Before(scope, y, x)
  }

  /** The ids from position `keep` on. */
  function Beyond(scope: Scope, keep: nat): set<Id> {
    set x | x in scope && |Preceding(scope, x)| >= keep
  }

  function Kept(scope: Scope, keep: nat): set<Id> {
    scope.Keys - Beyond(scope, keep)
  }

  lemma Contained(a: set<Id>, b: set<Id>)
    requires a <= b
    ensures |a| <= |b| && (a != b ==> |a| < |b|)
  {
    var rest := b - a;
    assert b == a + rest;
  }

  /** Whoever comes later has more before it. */
  lemma PrecedingGrows(scope: Scope, x: Id, y: Id)
    requires x in scope && y in scope && Before(scope, x, y)
    ensures |Preceding(scope, x)| < |Preceding(scope, y)|
  {
    forall z | z in Preceding(scope, x) ensures z in Preceding(scope, y) {
      BeforeTransitive(scope, z, x, y);
    }
    BeforeStrict(scope, x, x);
    assert x in Preceding(scope, y) && x !in Preceding(scope, x);
    Contained(Preceding(scope, x), Preceding(scope, y));
  }

  /** The last of a scope, which everything else precedes. */
  lemma {:induction false} Last(scope: Scope) returns (m: Id)
    requires scope != map[]
    ensures m in scope && forall y :: y in scope && y != m ==> Before(scope, y, m)
    decreases |scope|
  {
    var x :| x in scope;
    m := x;
    var rest := scope - {x};
    if rest != map[] {
      Contained(rest.Keys, scope.Keys);
      var n := Last(rest);
      BeforeStrict(scope, x, n);
      m := if Before(scope, x, n) then n else x;
      forall y | y in scope && y != m ensures Before(scope, y, m) {
        if y != x && y != n {
          assert Before(rest, y, n);
          if m == x { BeforeTransitive(scope, y, n, x); }
        }
      }
    } else {
      assert forall y :: y in scope && y != x ==> y in rest;
    }
  }

  lemma LastAside(scope: Scope, m: Id, keep: nat)
    requires m in scope && forall y :: y in scope && y != m ==> Before(scope, y, m)
    ensures var rest := scope - {m};
            Kept(scope, keep) == Kept(rest, keep) + (if |rest| < keep then {m} else {})
  {
    var rest := scope - {m};
    BeforeStrict(scope, m, m);
    assert Preceding(scope, m) == rest.Keys;
    forall x | x in rest ensures Preceding(scope, x) == Preceding(rest, x) {
      BeforeStrict(scope, x, m);
    }
  }

  /** Pruning keeps min(keep, size) of a scope, and every one it keeps comes before every one it drops. */
  lemma {:induction false} KeepsTheFirst(scope: Scope, keep: nat)
    ensures |Kept(scope, keep)| == if |scope| < keep then |scope| else keep
    ensures forall x, y :: x in Kept(scope, keep) && y in Beyond(scope, keep) ==> Before(scope, x, y)
    decreases |scope|
  {
    forall x, y | x in Kept(scope, keep) && y in Beyond(scope, keep) ensures Before(scope, x, y) {
      BeforeStrict(scope, x, y);
      if Before(scope, y, x) { PrecedingGrows(scope, y, x); }
    }
    if scope != map[] {
      var m := Last(scope);
      LastAside(scope, m, keep);
      assert scope.Keys == (scope - {m}).Keys + {m};
      KeepsTheFirst(scope - {m}, keep);
    } else {
      assert Kept(scope, keep) == {};
    }
  }

  lemma KeptCount(scope: Scope, keep: nat)
    ensures |Kept(scope, keep)| == if |scope.Keys| < keep then |scope.Keys| else keep
  {
    KeepsTheFirst(scope, keep);
  }

  /** Some ids of a scope, each before every other id. */
  ghost predicate Selection(scope: Scope, kept: set<Id>) {
    && kept <= scope.Keys
    && forall x, y :: x in kept && y in scope && y !in kept ==> Before(scope, x, y)
  }

  /** Only one selection has its size. */
  lemma OneSelection(scope: Scope, a: set<Id>, b: set<Id>)
    requires Selection(scope, a) && Selection(scope, b) && |a| == |b|
    ensures a == b
  {
    if a != b {
      var x := Missing(a, b);
      var y := Missing(b, a);
      BeforeStrict(scope, x, y);
      assert false;
    }
  }

  lemma Missing(a: set<Id>, b: set<Id>) returns (x: Id)
    requires |a| == |b| && a != b
    ensures x in a && x !in b
  {
    if a <= b {
      Contained(a, b);
      assert false;
    }
    x :| x in a && x !in b;
  }
}
