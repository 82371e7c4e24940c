/** Options, and facts about sequences. */
module Seqs {
  datatype Option<+T> = None | Some(value: T)

  ghost predicate Distinct<T>(s: seq<T>) {
    forall i, j | 0 <= i < j < |s| :: s[i] != s[j]
  }

  lemma Associative<T>(a: seq<T>, b: seq<T>, c: seq<T>)
    ensures (a + b) + c == a + (b + c)
  {
  }

  lemma DistinctMove<T>(a: seq<T>, x: T, b: seq<T>)
    requires Distinct((a + [x]) + b)
    ensures Distinct(a + (b + [x])) && x !in a && x !in b
  {
    var s, r := (a + [x]) + b, a + (b + [x]);
    var n := |a|;
    assert s[n] == x;
    forall i | 0 <= i < |a| ensures a[i] != x {
      assert s[i] == a[i] && s[i] != s[n];
    }
    forall i | 0 <= i < |b| ensures b[i] != x {
      assert s[n + 1 + i] == b[i] && s[n] != s[n + 1 + i];
    }
    forall i, j | 0 <= i < j < |r| ensures r[i] != r[j] {
      var p := if i < n then i else if i < |r| - 1 then i + 1 else n;
      var q := if j < n then j else if j < |r| - 1 then j + 1 else n;
      assert r[i] == s[p] && r[j] == s[q] && p != q;
    }
  }

  lemma DistinctSwap<T>(a: seq<T>, b: seq<T>, c: seq<T>)
    requires Distinct(a + (b + c))
    ensures Distinct((a + c) + b)
  {
    var s, r := a + (b + c), (a + c) + b;
    forall i, j | 0 <= i < j < |r| ensures r[i] != r[j] {
      var p := if i < |a| then i else if i < |a| + |c| then i + |b| else i - |c|;
      var q := if j < |a| then j else if j < |a| + |c| then j + |b| else j - |c|;
      assert r[i] == s[p] && r[j] == s[q] && p != q;
    }
  }

  lemma DistinctAppend<T>(s: seq<T>, x: T)
    requires Distinct(s) && x !in s
    ensures Distinct(s + [x])
  {
  }

  lemma DistinctInsert<T>(a: seq<T>, x: T, b: seq<T>)
    requires Distinct(a + b) && x !in a + b
    ensures Distinct((a + [x]) + b)
  {
    var s, r := a + b, (a + [x]) + b;
    var n := |a|;
    forall i, j | 0 <= i < j < |r| ensures r[i] != r[j] {
      var p, q := if i < n then i else i - 1, if j < n then j else j - 1;
      assert i != n ==> r[i] == s[p] && s[p] in s;
      assert j != n ==> r[j] == s[q] && s[q] in s;
    }
  }

  /** Putting `x` at place `k`. */
  lemma Spliced<T>(s: seq<T>, k: nat, x: T)
    requires k <= |s|
    ensures
      var r := s[..k] + [x] + s[k..];
      |r| == |s| + 1 && forall i | 0 <= i < |r| :: r[i] == if i < k then s[i] else if i == k then x else s[i - 1]
  {
  }

  lemma DistinctSplice<T>(s: seq<T>, k: nat, x: T)
    requires Distinct(s) && x !in s && k <= |s|
    ensures Distinct(s[..k] + [x] + s[k..])
  {
    assert s[..k] + s[k..] == s;
    DistinctInsert(s[..k], x, s[k..]);
  }

  lemma DistinctTail<T>(a: seq<T>, b: seq<T>)
    requires Distinct(a + b) && a != []
    ensures Distinct(a[1..] + b) && a[0] !in a[1..] && a[0] !in b
  {
    var s, t := a + b, a[1..] + b;
    assert s[0] == a[0];
    assert forall i | 0 <= i < |t| :: t[i] == s[i + 1];
    forall i | 0 <= i < |a[1..]| ensures a[1..][i] != a[0] {
      assert s[i + 1] == a[1..][i];
    }
    forall i | 0 <= i < |b| ensures b[i] != a[0] {
      assert s[|a| + i] == b[i];
    }
  }

  /** The sequence without the first occurrence of `x`. */
  function Without<T(==)>(s: seq<T>, x: T): seq<T> {
    if s == [] then [] else if s[0] == x then s[1..] else [s[0]] + Without(s[1..], x)
  }

  lemma {:induction false} WithoutExact<T>(s: seq<T>, x: T)
    requires Distinct(s)
    ensures Distinct(Without(s, x)) && x !in Without(s, x)
    ensures forall u | u in Without(s, x) :: u in s
    ensures forall u | u in s && u != x :: u in Without(s, x)
    ensures |Without(s, x)| == if x in s then |s| - 1 else |s|
  {
    if s != [] {
      var rest := s[1..];
      assert s == [s[0]] + rest;
      assert s[0] !in rest;
      WithoutExact(rest, x);
      if s[0] != x {
        assert Without(s, x) == [s[0]] + Without(rest, x);
      }
    }
  }

  lemma {:induction false} WithoutAbsent<T>(s: seq<T>, x: T)
    requires x !in s
    ensures Without(s, x) == s
  {
    if s != [] {
      WithoutAbsent(s[1..], x);
    }
  }

  lemma {:induction false} WithoutAppend<T>(s: seq<T>, t: seq<T>, x: T)
    ensures Without(s + t, x) == if x in s then Without(s, x) + t else s + Without(t, x)
  {
    WithoutUnfold(s, x);
    WithoutUnfold(s + t, x);
    hide Without;
    if s == [] {
      assert s + t == t;
      assert s + Without(t, x) == Without(t, x);
    } else {
      WithoutAppend(s[1..], t, x);
      assert (s + t)[0] == s[0] && (s + t)[1..] == s[1..] + t;
      Associative([s[0]], Without(s[1..], x), t);
      Associative([s[0]], s[1..], Without(t, x));
      assert s == [s[0]] + s[1..];
    }
  }

  lemma WithoutUnfold<T>(s: seq<T>, x: T)
    ensures Without(s, x) == if s == [] then [] else if s[0] == x then s[1..] else [s[0]] + Without(s[1..], x)
  {
  }
}
