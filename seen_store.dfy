/**
 * The seen-link store: what `load_seen` reads back and what `save_seen`
 * writes, `sorted(seen)`, under Python's ordering of `str`.
 */
module SeenStore {
  import opened Wrappers

  /** Python's `a < b` on `str`: code point by code point, a proper prefix first. */
  predicate Less(a: string, b: string)
    decreases |a|
  {
    if a == [] then b != []
    else if b == [] then false
    else if a[0] != b[0] then a[0] < b[0]
    else Less(a[1..], b[1..])
  }

  lemma {:induction false} LessIrreflexive(a: string)
    ensures !Less(a, a)
  {
    if a != [] {
      LessIrreflexive(a[1..]);
    }
  }

  lemma {:induction false} LessAsymmetric(a: string, b: string)
    ensures Less(a, b) ==> !Less(b, a)
  {
    if a != [] && b != [] && a[0] == b[0] {
      LessAsymmetric(a[1..], b[1..]);
    }
  }

  lemma {:induction false} LessTransitive(a: string, b: string, c: string)
    requires Less(a, b) && Less(b, c)
    ensures Less(a, c)
  {
    if a != [] && a[0] == b[0] && b[0] == c[0] {
      LessTransitive(a[1..], b[1..], c[1..]);
    }
  }

  lemma {:induction false} LessTotal(a: string, b: string)
    requires a != b
    ensures Less(a, b) || Less(b, a)
  {
    if a != [] && b != [] && a[0] == b[0] {
      assert a == [a[0]] + a[1..] && b == [b[0]] + b[1..];
      LessTotal(a[1..], b[1..]);
    }
  }

  predicate StrictlyIncreasing(xs: seq<string>) {
    forall i, j :: 0 <= i < j < |xs| ==> Less(xs[i], xs[j])
  }

  /** `m` is the smallest string of `s`. */
  predicate IsLeast(m: string, s: set<string>) {
    m in s && forall y :: y in s && y != m ==> Less(m, y)
  }

  /** Every non-empty finite set of strings has a smallest element. */
  lemma {:induction false} LeastExists(s: set<string>)
    requires s != {}
    ensures exists m :: IsLeast(m, s)
    decreases |s|
  {
    var x :| x in s;
    if s == {x} {
      assert IsLeast(x, s);
    } else {
      var rest := s - {x};
      LeastExists(rest);
      var m :| IsLeast(m, rest);
      if Less(x, m) {
        forall y | y in s && y != x ensures Less(x, y) {
          if y != m {
            LessTransitive(x, m, y);
          }
        }
        assert IsLeast(x, s);
      } else {
        LessTotal(x, m);
        assert IsLeast(m, s);
      }
    }
  }

  lemma LeastUnique(s: set<string>)
    ensures forall m1, m2 :: IsLeast(m1, s) && IsLeast(m2, s) ==> m1 == m2
  {
    forall m1, m2 | IsLeast(m1, s) && IsLeast(m2, s) ensures m1 == m2 {
      LessAsymmetric(m1, m2);
    }
  }

  /**
   * `sorted(seen)`, the JSON array `save_seen` writes: every element of the
   * set exactly once, in strictly increasing order.
   */
  function SeenSnapshot(seen: set<string>): (snapshot: seq<string>)
    ensures StrictlyIncreasing(snapshot)
    ensures forall x :: x in snapshot <==> x in seen
    ensures |snapshot| == |seen|
    decreases |seen|
  {
    if seen == {} then []
    else
      LeastExists(seen);
      LeastUnique(seen);
      var m :| IsLeast(m, seen);
      var rest := SeenSnapshot(seen - {m});
      assert forall j :: 0 <= j < |rest| ==> rest[j] in seen - {m};
      assert forall j :: 0 <= j < |rest| ==> Less(m, rest[j]);
      [m] + rest
  }

  /** `load_seen()`: the set of the stored array, or the empty set when there is no store. */
  function LoadSeen(store: Option<seq<string>>): (seen: set<string>)
    ensures store.None? ==> seen == {}
    ensures store.Some? ==> forall x :: x in seen <==> x in store.value
  {
    match store
    case None => {}
    case Some(links) => set x | x in links
  }

  /** Loading what `save_seen` wrote gives back the saved set. */
  lemma SnapshotRoundTrip(seen: set<string>)
    ensures LoadSeen(Some(SeenSnapshot(seen))) == seen
  {
  }

  lemma NoElements(xs: seq<string>)
    ensures (forall x :: x !in xs) <==> xs == []
  {
    if xs != [] {
      assert xs[0] in xs;
    }
  }

  /** Two strictly increasing lists with the same elements are the same list. */
  lemma {:induction false} SortedUnique(a: seq<string>, b: seq<string>)
    requires StrictlyIncreasing(a) && StrictlyIncreasing(b)
    requires forall x :: x in a <==> x in b
    ensures a == b
  {
    if a == [] {
      NoElements(b);
    } else {
      assert a[0] in b;
      assert b != [];
      if a[0] != b[0] {
        assert b[0] in a;
        var i :| 0 <= i < |a| && a[i] == b[0];
        var j :| 0 <= j < |b| && b[j] == a[0];
        assert Less(a[0], b[0]) && Less(b[0], a[0]);
        LessAsymmetric(a[0], b[0]);
      }
      forall x ensures x in a[1..] <==> x in b[1..] {
        LessIrreflexive(x);
        assert x in a <==> x in a[1..] || x == a[0];
        assert x in b <==> x in b[1..] || x == b[0];
        if x in a[1..] {
          var i :| 0 <= i < |a[1..]| && a[1..][i] == x;
          assert Less(a[0], a[i + 1]);
        }
        if x in b[1..] {
          var i :| 0 <= i < |b[1..]| && b[1..][i] == x;
          assert Less(b[0], b[i + 1]);
        }
      }
      SortedUnique(a[1..], b[1..]);
      assert a == [a[0]] + a[1..] && b == [b[0]] + b[1..];
    }
  }

  /** The snapshot is the only strictly increasing list of the set's elements. */
  lemma SnapshotDetermined(seen: set<string>, written: seq<string>)
    requires StrictlyIncreasing(written)
    requires forall x :: x in written <==> x in seen
    ensures written == SeenSnapshot(seen)
  {
    SortedUnique(written, SeenSnapshot(seen));
  }

  /** Links discovered as `"b"` then `"a"` are written as `["a", "b"]`. */
  lemma SnapshotExample()
    ensures SeenSnapshot({"b", "a"}) == ["a", "b"]
  {
    assert Less("a", "b");
    SnapshotDetermined({"b", "a"}, ["a", "b"]);
  }
}
