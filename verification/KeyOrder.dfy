/** The order in which a std::map from strings is walked. */
module KeyOrder {

  predicate LexLe(a: string, b: string) {
    if a == "" then true
    else if b == "" then false
    else a[0] < b[0] || (a[0] == b[0] && LexLe(a[1..], b[1..]))
  }

  /** The texts agree before position k, and a is the smaller one there. */
  predicate SmallerAt(a: string, b: string, k: nat) {
    k < |a| && k < |b| && a[k] < b[k] && forall i :: 0 <= i < k ==> a[i] == b[i]
  }

  lemma SmallerBehind(c: char, a: string, b: string)
    ensures forall k: nat :: SmallerAt([c] + a, [c] + b, k + 1) <==> SmallerAt(a, b, k)
    ensures !SmallerAt([c] + a, [c] + b, 0)
  {
    forall k: nat ensures SmallerAt([c] + a, [c] + b, k + 1) <==> SmallerAt(a, b, k) {
      if SmallerAt([c] + a, [c] + b, k + 1) {
        forall i | 0 <= i < k ensures a[i] == b[i] {
          assert ([c] + a)[i + 1] == ([c] + b)[i + 1];
        }
      }
    }
  }

  /** The order of std::string: a is a prefix of b, or smaller at the first place where they differ. */
  lemma {:induction false} LexLeMeans(a: string, b: string)
    ensures LexLe(a, b) <==> a <= b || exists k: nat :: SmallerAt(a, b, k)
    decreases |a|
  {
    if a != [] && b != [] {
      var c, x, y := a[0], a[1..], b[1..];
      assert a == [c] + x && b == [b[0]] + y;
      if c == b[0] {
        LexLeMeans(x, y);
        SmallerBehind(c, x, y);
        hide SmallerAt;
        if k: nat :| SmallerAt(a, b, k) {
          assert SmallerAt(x, y, k - 1);
        }
        if k: nat :| SmallerAt(x, y, k) {
          assert SmallerAt(a, b, k + 1);
        }
      } else {
        assert c < b[0] <==> SmallerAt(a, b, 0);
        assert forall k: nat :: SmallerAt(a, b, k) ==> k == 0;
      }
    }
  }

  lemma {:induction false} LexTotal(a: string, b: string)
    ensures LexLe(a, b) || LexLe(b, a)
    decreases |a|
  {
    if a != "" && b != "" {
      LexTotal(a[1..], b[1..]);
    }
  }

  lemma {:induction false} LexTransitive(a: string, b: string, c: string)
    requires LexLe(a, b) && LexLe(b, c)
    ensures LexLe(a, c)
    decreases |a|
  {
    if a != "" && a[0] == b[0] && b[0] == c[0] {
      LexTransitive(a[1..], b[1..], c[1..]);
    }
  }

  lemma {:induction false} LexAntisymmetric(a: string, b: string)
    requires LexLe(a, b) && LexLe(b, a)
    ensures a == b
    decreases |a|
  {
    if a != "" {
      LexAntisymmetric(a[1..], b[1..]);
      assert a == [a[0]] + a[1..] && b == [b[0]] + b[1..];
    }
  }

  predicate IsLeast(k: string, keys: set<string>) {
    k in keys && forall j :: j in keys ==> LexLe(k, j)
  }

  lemma {:induction false} LeastExists(keys: set<string>)
    requires keys != {}
    ensures exists k :: IsLeast(k, keys)
    decreases |keys|
  {
    hide LexLe;
    var x :| x in keys;
    var rest := keys - {x};
    LexTotal(x, x);
    if rest == {} {
      assert keys == {x};
      assert IsLeast(x, keys);
    } else {
      LeastExists(rest);
      var m :| IsLeast(m, rest);
      LexTotal(x, m);
      if LexLe(x, m) {
        forall j | j in keys ensures LexLe(x, j) {
          if j != x {
            assert j in rest;
            LexTransitive(x, m, j);
          }
        }
        assert IsLeast(x, keys);
      } else {
        forall j | j in keys ensures LexLe(m, j) {
          assert j == x || j in rest;
        }
        assert IsLeast(m, keys);
      }
    }
  }

  predicate InKeyOrder(keys: seq<string>) {
    forall i, j :: 0 <= i < j < |keys| ==> keys[i] != keys[j] && LexLe(keys[i], keys[j])
  }

  /** keys lists the given set in key order. */
  ghost predicate Walks(keys: seq<string>, all: set<string>) {
    InKeyOrder(keys) && forall k :: k in keys <==> k in all
  }

  lemma FirstIsLeast(keys: seq<string>, k: string)
    requires InKeyOrder(keys) && k in keys
    ensures LexLe(keys[0], k)
  {
    var i :| 0 <= i < |keys| && keys[i] == k;
    LexTotal(k, k);
  }

  /** There is only one way to walk a set in key order. */
  lemma {:induction false} WalkIsUnique(a: seq<string>, b: seq<string>, all: set<string>)
    requires Walks(a, all) && Walks(b, all)
    ensures a == b
    decreases |a|
  {
    hide LexLe;
    BothEmpty(a, b, all);
    if a != [] {
      var x := a[0];
      assert x in a && x in b && b[0] in b && b[0] in a;
      FirstIsLeast(a, b[0]);
      FirstIsLeast(b, x);
      LexAntisymmetric(x, b[0]);
      RestWalks(a, all);
      RestWalks(b, all);
      WalkIsUnique(a[1..], b[1..], all - {x});
    }
  }

  /** There is a way to walk it. */
  lemma {:induction false} WalkExists(all: set<string>) returns (keys: seq<string>)
    ensures Walks(keys, all)
    decreases |all|
  {
    hide LexLe;
    keys := [];
    if all != {} {
      LeastExists(all);
      var k :| IsLeast(k, all);
      var rest := WalkExists(all - {k});
      WalkCons(k, rest, all);
      keys := [k] + rest;
    }
  }

  lemma WalkCons(k: string, rest: seq<string>, all: set<string>)
    requires IsLeast(k, all) && Walks(rest, all - {k})
    ensures Walks([k] + rest, all)
  {
    hide LexLe;
    var keys := [k] + rest;
    forall i, j | 0 <= i < j < |keys| ensures keys[i] != keys[j] && LexLe(keys[i], keys[j]) {
      assert keys[j] == rest[j - 1] && keys[j] in rest;
      assert i > 0 ==> keys[i] == rest[i - 1];
    }
  }

  lemma BothEmpty(a: seq<string>, b: seq<string>, all: set<string>)
    requires Walks(a, all) && Walks(b, all)
    ensures a == [] <==> b == []
  {
    hide InKeyOrder;
    assert a != [] ==> a[0] in a;
    assert b != [] ==> b[0] in b;
  }

  lemma RestWalks(a: seq<string>, all: set<string>)
    requires Walks(a, all) && a != []
    ensures Walks(a[1..], all - {a[0]})
  {
    hide LexLe;
    assert a == [a[0]] + a[1..];
  }

  /** n different numbers below bound are at most bound many. */
  lemma {:induction false} Pigeonhole(xs: seq<nat>, bound: nat)
    requires forall i :: 0 <= i < |xs| ==> xs[i] < bound
    requires forall i, j :: 0 <= i < j < |xs| ==> xs[i] != xs[j]
    ensures |xs| <= bound
    decreases bound
  {
    if xs != [] {
      assert xs[0] < bound;
      if last: nat :| last < |xs| && xs[last] == bound - 1 {
        var rest := xs[..last] + xs[last + 1..];
        forall i | 0 <= i < |rest| ensures rest[i] < bound - 1 {
          var k := if i < last then i else i + 1;
          assert rest[i] == xs[k] && k != last;
        }
        Pigeonhole(rest, bound - 1);
      } else {
        Pigeonhole(xs, bound - 1);
      }
    }
  }
}
