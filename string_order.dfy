/** Python's ordering of strings (code point by code point), `numpy.unique`
    and `sorted` over sequences of strings. */
module StringOrder {

  /** `a < b` for Python strings: a proper prefix is smaller, otherwise the
      first differing character decides. */
  predicate Less(a: string, b: string)
    decreases |a|
  {
    |b| > 0 && (|a| == 0 || a[0] < b[0] || (a[0] == b[0] && Less(a[1..], b[1..])))
  }

  lemma {:induction false} LessIrreflexive(a: string)
    ensures !Less(a, a)
    decreases |a|
  {
    if |a| > 0 {
      LessIrreflexive(a[1..]);
    }
  }

  lemma {:induction false} LessTransitive(a: string, b: string, c: string)
    requires Less(a, b) && Less(b, c)
    ensures Less(a, c)
    decreases |a|
  {
    if |a| > 0 && a[0] == b[0] && b[0] == c[0] {
      LessTransitive(a[1..], b[1..], c[1..]);
    }
  }

  lemma {:induction false} LessTotal(a: string, b: string)
    ensures a == b || Less(a, b) || Less(b, a)
    decreases |a|
  {
    if |a| > 0 && |b| > 0 && a[0] == b[0] {
      LessTotal(a[1..], b[1..]);
      if a[1..] == b[1..] {
        assert a == [a[0]] + a[1..] && b == [b[0]] + b[1..];
      }
    }
  }

  lemma LessAsymmetric(a: string, b: string)
    requires Less(a, b)
    ensures !Less(b, a)
  {
    if Less(b, a) {
      LessTransitive(a, b, a);
      LessIrreflexive(a);
    }
  }

  /** Each element is smaller than every later one (sorted, no duplicates). */
  predicate StrictlyAscending(xs: seq<string>)
  {
    forall i, j :: 0 <= i < j < |xs| ==> Less(xs[i], xs[j])
  }

  /** No element is smaller than an earlier one (sorted, duplicates allowed). */
  predicate Ascending(xs: seq<string>)
  {
    forall i, j :: 0 <= i < j < |xs| ==> !Less(xs[j], xs[i])
  }

  lemma StrictlyAscendingTail(xs: seq<string>)
    requires StrictlyAscending(xs) && |xs| > 0
    ensures StrictlyAscending(xs[1..])
    ensures forall x :: x in xs[1..] ==> Less(xs[0], x)
  {
    forall x | x in xs[1..]
      ensures Less(xs[0], x)
    {
      var k :| 0 <= k < |xs[1..]| && xs[1..][k] == x;
      assert xs[k + 1] == x;
    }
  }

  /** Adds `x` to a strictly ascending sequence, keeping it strictly ascending. */
  function InsertUnique(x: string, ys: seq<string>): (r: seq<string>)
    requires StrictlyAscending(ys)
    ensures StrictlyAscending(r)
    ensures forall z :: z in r <==> z == x || z in ys
  {
    if ys == [] then [x]
    else if x == ys[0] then ys
    else if Less(x, ys[0]) then
      StrictlyAscendingTail(ys);
      assert forall z :: z in ys[1..] ==> Less(x, z) by {
        forall z | z in ys[1..] ensures Less(x, z) { LessTransitive(x, ys[0], z); }
      }
      PrependStrictlyAscending(x, ys);
      [x] + ys
    else
      StrictlyAscendingTail(ys);
      LessTotal(x, ys[0]);
      var rest := InsertUnique(x, ys[1..]);
      PrependStrictlyAscending(ys[0], rest);
      assert ys == [ys[0]] + ys[1..];
      [ys[0]] + rest
  }

  lemma PrependStrictlyAscending(x: string, ys: seq<string>)
    requires StrictlyAscending(ys)
    requires forall z :: z in ys ==> Less(x, z)
    ensures StrictlyAscending([x] + ys)
  {
    var r := [x] + ys;
    forall i, j | 0 <= i < j < |r|
      ensures Less(r[i], r[j])
    {
      assert r[j] == ys[j - 1];
      if i > 0 {
        assert r[i] == ys[i - 1];
      }
    }
  }

  /** `numpy.unique` on strings: the distinct elements, sorted ascending. */
  function Unique(xs: seq<string>): (r: seq<string>)
    ensures StrictlyAscending(r)
    ensures forall z :: z in r <==> z in xs
  {
    if xs == [] then [] else InsertUnique(xs[0], Unique(xs[1..]))
  }

  /** A strictly ascending sequence is determined by its elements. */
  lemma {:induction false} StrictlyAscendingUnique(a: seq<string>, b: seq<string>)
    requires StrictlyAscending(a) && StrictlyAscending(b)
    requires forall z :: z in a <==> z in b
    ensures a == b
    decreases |a|
  {
    assert a != [] ==> a[0] in a;
    assert b != [] ==> b[0] in b;
    if a != [] && b != [] {
      StrictlyAscendingTail(a);
      StrictlyAscendingTail(b);
      assert a[0] in b && b[0] in a;
      if a[0] != b[0] {
        assert a[0] in b[1..] by { assert a[0] in b && a[0] != b[0]; assert b == [b[0]] + b[1..]; }
        assert b[0] in a[1..] by { assert b[0] in a && b[0] != a[0]; assert a == [a[0]] + a[1..]; }
        LessAsymmetric(a[0], b[0]);
      }
      forall z
        ensures z in a[1..] <==> z in b[1..]
      {
        assert a == [a[0]] + a[1..] && b == [b[0]] + b[1..];
        if z in a[1..] {
          assert Less(a[0], z);
          LessIrreflexive(z);
          assert z in b && z != b[0];
        }
        if z in b[1..] {
          assert Less(b[0], z);
          LessIrreflexive(z);
          assert z in a && z != a[0];
        }
      }
      StrictlyAscendingUnique(a[1..], b[1..]);
      assert a == [a[0]] + a[1..] && b == [b[0]] + b[1..];
    }
  }

  /** Inserts `x` into an ascending sequence before the first larger element. */
  function Insert(x: string, ys: seq<string>): (r: seq<string>)
    requires Ascending(ys)
    ensures Ascending(r)
    ensures multiset(r) == multiset(ys) + multiset{x}
  {
    if ys == [] || !Less(ys[0], x) then
      assert forall z :: z in ys ==> !Less(z, x) by {
        forall z | z in ys ensures !Less(z, x) {
          var k :| 0 <= k < |ys| && ys[k] == z;
          if Less(z, x) {
            LessTotal(ys[0], z);
            if Less(ys[0], z) { LessTransitive(ys[0], z, x); }
          }
        }
      }
      PrependAscending(x, ys);
      [x] + ys
    else
      var rest := Insert(x, ys[1..]);
      assert forall z :: z in rest ==> !Less(z, ys[0]) by {
        forall z | z in rest ensures !Less(z, ys[0]) {
          assert z in multiset(rest);
          if z != x {
            assert z in ys[1..];
            var k :| 0 <= k < |ys[1..]| && ys[1..][k] == z;
            assert ys[k + 1] == z;
          } else {
            LessAsymmetric(ys[0], x);
          }
        }
      }
      PrependAscending(ys[0], rest);
      assert ys == [ys[0]] + ys[1..];
      [ys[0]] + rest
  }

  lemma PrependAscending(x: string, ys: seq<string>)
    requires Ascending(ys)
    requires forall z :: z in ys ==> !Less(z, x)
    ensures Ascending([x] + ys)
  {
    var r := [x] + ys;
    forall i, j | 0 <= i < j < |r|
      ensures !Less(r[j], r[i])
    {
      assert r[j] == ys[j - 1];
      if i > 0 {
        assert r[i] == ys[i - 1];
      }
    }
  }

  /** Python's `sorted` on strings: an ascending permutation of the input. */
  function Sorted(xs: seq<string>): (r: seq<string>)
    ensures Ascending(r)
    ensures multiset(r) == multiset(xs)
  {
    if xs == [] then []
    else
      assert xs == [xs[0]] + xs[1..];
      Insert(xs[0], Sorted(xs[1..]))
  }
}
