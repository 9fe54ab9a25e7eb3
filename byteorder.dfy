/** Byte-wise lexicographic order on byte strings: what strings.Compare and sort.Strings use
    to order Go strings. */
module ByteOrder {
  import opened Ascii

  /** `a` sorts strictly before `b`: at the first differing byte `a`'s is smaller, or `a` is
      a proper prefix of `b`. */
  predicate Less(a: seq<byte>, b: seq<byte>)
    decreases |a|
  {
    if |a| == 0 then |b| > 0
    else if |b| == 0 then false
    else if a[0] != b[0] then a[0] < b[0]
    else Less(a[1..], b[1..])
  }

  lemma {:induction false} LessIrreflexive(a: seq<byte>)
    ensures !Less(a, a)
  {
    if |a| > 0 {
      LessIrreflexive(a[1..]);
    }
  }

  lemma {:induction false} LessAsymmetric(a: seq<byte>, b: seq<byte>)
    requires Less(a, b)
    ensures !Less(b, a)
  {
    if |a| > 0 && |b| > 0 && a[0] == b[0] {
      LessAsymmetric(a[1..], b[1..]);
    }
  }

  lemma {:induction false} LessTransitive(a: seq<byte>, b: seq<byte>, c: seq<byte>)
    requires Less(a, b) && Less(b, c)
    ensures Less(a, c)
  {
    if |a| > 0 && a[0] == b[0] && b[0] == c[0] {
      LessTransitive(a[1..], b[1..], c[1..]);
    }
  }

  lemma {:induction false} LessTotal(a: seq<byte>, b: seq<byte>)
    ensures a == b || Less(a, b) || Less(b, a)
  {
    if |a| > 0 && |b| > 0 && a[0] == b[0] {
      LessTotal(a[1..], b[1..]);
      if a[1..] == b[1..] {
        assert a == [a[0]] + a[1..] && b == [b[0]] + b[1..];
      }
    }
  }

  /** "Not after": the order sort.Strings leaves adjacent elements in. */
  lemma NotLessTransitive(a: seq<byte>, b: seq<byte>, c: seq<byte>)
    requires !Less(b, a) && !Less(c, b)
    ensures !Less(c, a)
  {
    LessTotal(a, b);
    LessTotal(b, c);
    if Less(c, a) {
      if Less(a, b) {
        LessTransitive(c, a, b);
      }
    }
  }

  /** strings.Compare: -1, 0 or +1 as `a` sorts before, equal to, or after `b`. */
  function Compare(a: seq<byte>, b: seq<byte>): (r: int)
    ensures r == -1 <==> Less(a, b)
    ensures r == 0 <==> a == b
    ensures r == 1 <==> Less(b, a)
  {
    LessTotal(a, b);
    LessIrreflexive(a);
    if Less(a, b) then LessAsymmetric(a, b); -1
    else if a == b then 0
    else 1
  }

  /** No element sorts before an earlier one. */
  predicate Sorted(s: seq<seq<byte>>) {
    forall i, j :: 0 <= i < j < |s| ==> !Less(s[j], s[i])
  }

  /** Strictly ascending, hence also free of repetitions. */
  predicate StrictlySorted(s: seq<seq<byte>>) {
    forall i, j :: 0 <= i < j < |s| ==> Less(s[i], s[j])
  }

  /** An element that no later one sorts before can head a sorted sequence. */
  lemma SortedCons(x: seq<byte>, s: seq<seq<byte>>)
    requires Sorted(s)
    requires forall j :: 0 <= j < |s| ==> !Less(s[j], x)
    ensures Sorted([x] + s)
  {
    var r := [x] + s;
    forall i, j | 0 <= i < j < |r| ensures !Less(r[j], r[i]) {
      assert r[j] == s[j - 1];
      if i > 0 {
        assert r[i] == s[i - 1];
      }
    }
  }

  /** Places `x` before the first element that does not sort before it. */
  function Insert(x: seq<byte>, s: seq<seq<byte>>): (r: seq<seq<byte>>)
    requires Sorted(s)
    ensures Sorted(r)
    ensures multiset(r) == multiset(s) + multiset{x}
  {
    if s == [] || !Less(s[0], x) then
      forall j | 0 <= j < |s| ensures !Less(s[j], x) {
        if j > 0 {
          NotLessTransitive(x, s[0], s[j]);
        }
      }
      SortedCons(x, s);
      [x] + s
    else
      assert s == [s[0]] + s[1..];
      var tail := Insert(x, s[1..]);
      LessAsymmetric(s[0], x);
      forall j | 0 <= j < |tail| ensures !Less(tail[j], s[0]) {
        assert tail[j] in multiset(tail);
      }
      SortedCons(s[0], tail);
      [s[0]] + tail
  }

  /** sort.Strings: an ascending permutation of its input. */
  function SortStrings(xs: seq<seq<byte>>): (r: seq<seq<byte>>)
    ensures Sorted(r)
    ensures multiset(r) == multiset(xs)
  {
    if xs == [] then []
    else
      assert xs == [xs[0]] + xs[1..];
      Insert(xs[0], SortStrings(xs[1..]))
  }

  /** A sorted sequence none of whose elements occurs twice is strictly sorted. */
  lemma SortedDistinctIsStrict(s: seq<seq<byte>>)
    requires Sorted(s)
    requires forall x :: multiset(s)[x] <= 1
    ensures StrictlySorted(s)
  {
    forall i, j | 0 <= i < j < |s| ensures Less(s[i], s[j]) {
      assert s == s[..j] + s[j..];
      assert s[..j][i] == s[i] && s[j..][0] == s[j];
      assert multiset(s[..j])[s[i]] >= 1 && multiset(s[j..])[s[j]] >= 1;
      assert multiset(s) == multiset(s[..j]) + multiset(s[j..]);
      assert multiset(s)[s[i]] <= 1;
      assert multiset(s)[s[j]] == multiset(s[..j])[s[j]] + multiset(s[j..])[s[j]];
      LessTotal(s[i], s[j]);
    }
  }

  lemma {:induction false} Minimum(ks: set<seq<byte>>) returns (m: seq<byte>)
    requires ks != {}
    ensures m in ks && forall j :: j in ks && j != m ==> Less(m, j)
  {
    var x :| x in ks;
    var others := ks - {x};
    if others == {} {
      assert ks == {x};
      m := x;
    } else {
      var y := Minimum(others);
      LessTotal(x, y);
      if Less(x, y) {
        m := x;
        forall j | j in ks && j != x ensures Less(x, j) {
          if j != y {
            LessTransitive(x, y, j);
          }
        }
      } else {
        m := y;
      }
    }
  }

  lemma MinimumExists(ks: set<seq<byte>>)
    requires ks != {}
    ensures exists k :: k in ks && forall j :: j in ks && j != k ==> Less(k, j)
  {
    var m := Minimum(ks);
  }

  /** The keys of a set in ascending order, each exactly once. */
  ghost function SortedSet(ks: set<seq<byte>>): (r: seq<seq<byte>>)
    ensures StrictlySorted(r)
    ensures forall k :: k in r <==> k in ks
    ensures |r| == |ks|
  {
    if ks == {} then []
    else
      MinimumExists(ks);
      var k :| k in ks && forall j :: j in ks && j != k ==> Less(k, j);
      [k] + SortedSet(ks - {k})
  }

  /** There is only one strictly ascending arrangement of a set of byte strings. */
  lemma {:induction false} StrictlySortedUnique(a: seq<seq<byte>>, b: seq<seq<byte>>)
    requires StrictlySorted(a) && StrictlySorted(b)
    requires forall k :: k in a <==> k in b
    ensures a == b
  {
    assert a != [] ==> a[0] in b;
    assert b != [] ==> b[0] in a;
    if a != [] && b != [] {
      var i :| 0 <= i < |a| && a[i] == b[0];
      var j :| 0 <= j < |b| && b[j] == a[0];
      if i > 0 {
        if j > 0 {
          LessAsymmetric(a[0], a[i]);
        } else {
          LessIrreflexive(a[0]);
        }
      } else if j > 0 {
        LessIrreflexive(b[0]);
      }
      assert a[0] == b[0];
      forall k ensures k in a[1..] <==> k in b[1..] {
        if k in a[1..] {
          var p :| 0 <= p < |a| - 1 && a[1..][p] == k;
          LessIrreflexive(a[0]);
          assert k in b && k != b[0];
          var q :| 0 <= q < |b| && b[q] == k;
          assert b[1..][q - 1] == k;
        }
        if k in b[1..] {
          var p :| 0 <= p < |b| - 1 && b[1..][p] == k;
          LessIrreflexive(b[0]);
          assert k in a && k != a[0];
          var q :| 0 <= q < |a| && a[q] == k;
          assert a[1..][q - 1] == k;
        }
      }
      StrictlySortedUnique(a[1..], b[1..]);
      assert a == [a[0]] + a[1..] && b == [b[0]] + b[1..];
    }
  }
}
