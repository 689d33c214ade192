/** Python's `sorted(...)` over a set of strings and the slice `[:k]`. */
module Ordering {

  /** Python's `a < b` on str: code points compared left to right, and a
      proper prefix sorts before the longer string. */
  predicate Less(a: string, b: string)
  {
    if |a| == 0 then |b| > 0
    else if |b| == 0 then false
    else if a[0] != b[0] then a[0] < b[0]
    else Less(a[1..], b[1..])
  }

  /** Less is the lexicographic order: a is a proper prefix of b, or the
      two agree up to a first difference where a has the smaller
      character. */
  lemma {:induction false} LessIsLexicographic(a: string, b: string)
    ensures Less(a, b) <==>
            (|a| < |b| && a == b[..|a|])
            || exists k :: 0 <= k < |a| && k < |b| && a[..k] == b[..k] && a[k] < b[k]
  {
    if |a| > 0 && |b| > 0 {
      if a[0] != b[0] {
        if Less(a, b) {
          assert a[..0] == b[..0];
        }
        forall k | 0 < k < |a| && k < |b| ensures a[..k] != b[..k] {
          assert a[..k][0] != b[..k][0];
        }
      } else {
        LessIsLexicographic(a[1..], b[1..]);
        PrefixTail(a, b);
        DifferenceTail(a, b);
      }
    }
  }

  /** With equal first characters, a is a proper prefix of b exactly when
      the same holds of their tails. */
  lemma PrefixTail(a: string, b: string)
    requires |a| > 0 && |b| > 0 && a[0] == b[0]
    ensures (|a| < |b| && a == b[..|a|]) <==> (|a[1..]| < |b[1..]| && a[1..] == b[1..][..|a[1..]|])
  {
    if |a| < |b| && a[1..] == b[1..][..|a| - 1] {
      assert a == [a[0]] + a[1..];
      assert b[..|a|] == [b[0]] + b[1..][..|a| - 1];
    }
  }

  /** With equal first characters, a and b first differ at k + 1 with a
      smaller exactly when their tails first differ at k with a smaller. */
  lemma DifferenceTail(a: string, b: string)
    requires |a| > 0 && |b| > 0 && a[0] == b[0]
    ensures (exists k :: 0 <= k < |a| && k < |b| && a[..k] == b[..k] && a[k] < b[k]) <==>
            (exists k :: 0 <= k < |a[1..]| && k < |b[1..]| && a[1..][..k] == b[1..][..k] && a[1..][k] < b[1..][k])
  {
    if exists k :: 0 <= k < |a| && k < |b| && a[..k] == b[..k] && a[k] < b[k] {
      var k :| 0 <= k < |a| && k < |b| && a[..k] == b[..k] && a[k] < b[k];
      assert k > 0;
      assert a[1..][..k - 1] == a[..k][1..] && b[1..][..k - 1] == b[..k][1..];
      assert a[1..][k - 1] == a[k] && b[1..][k - 1] == b[k];
    }
    if exists k :: 0 <= k < |a[1..]| && k < |b[1..]| && a[1..][..k] == b[1..][..k] && a[1..][k] < b[1..][k] {
      var k :| 0 <= k < |a[1..]| && k < |b[1..]| && a[1..][..k] == b[1..][..k] && a[1..][k] < b[1..][k];
      assert a[..k + 1] == [a[0]] + a[1..][..k];
      assert b[..k + 1] == [b[0]] + b[1..][..k];
      assert a[k + 1] == a[1..][k] && b[k + 1] == b[1..][k];
    }
  }

  lemma {:induction false} LessIrreflexive(a: string)
    ensures !Less(a, a)
  {
    if |a| > 0 { LessIrreflexive(a[1..]); }
  }

  lemma {:induction false} LessAsymmetric(a: string, b: string)
    requires Less(a, b)
    ensures !Less(b, a)
  {
    if |a| > 0 && |b| > 0 && a[0] == b[0] { LessAsymmetric(a[1..], b[1..]); }
  }

  lemma {:induction false} LessTransitive(a: string, b: string, c: string)
    requires Less(a, b) && Less(b, c)
    ensures Less(a, c)
  {
    if |a| > 0 && a[0] == b[0] && b[0] == c[0] { LessTransitive(a[1..], b[1..], c[1..]); }
  }

  lemma {:induction false} LessTotal(a: string, b: string)
    requires a != b
    ensures Less(a, b) || Less(b, a)
  {
    if |a| > 0 && |b| > 0 && a[0] == b[0] {
      assert a == [a[0]] + a[1..] && b == [b[0]] + b[1..];
      LessTotal(a[1..], b[1..]);
    }
  }

  /** Ascending with no repeated entry: what `sorted` yields on a set. */
  predicate StrictlyAscending(s: seq<string>)
  {
    forall i, j :: 0 <= i < j < |s| ==> Less(s[i], s[j])
  }

  /** m is the least element of S. */
  predicate IsLeast(m: string, S: set<string>)
  {
    m in S && forall x :: x in S ==> !Less(x, m)
  }

  lemma {:induction false} LeastExists(S: set<string>)
    requires S != {}
    ensures exists m :: IsLeast(m, S)
    decreases |S|
  {
    var y :| y in S;
    var rest := S - {y};
    if rest == {} {
      assert S == {y};
      LessIrreflexive(y);
      assert IsLeast(y, S);
    } else {
      LeastExists(rest);
      var m :| IsLeast(m, rest);
      if Less(y, m) {
        forall x | x in S ensures !Less(x, y) {
          if x == y {
            LessIrreflexive(y);
          } else if Less(x, y) {
            LessTransitive(x, y, m);
            assert false;
          }
        }
        assert IsLeast(y, S);
      } else {
        assert IsLeast(m, S);
      }
    }
  }

  /** The least element of S sorts before every other element of S. */
  lemma LeastBeforeOthers(m: string, S: set<string>)
    requires IsLeast(m, S)
    ensures forall x :: x in S && x != m ==> Less(m, x)
  {
    forall x | x in S && x != m ensures Less(m, x) { LessTotal(m, x); }
  }

  /** The sorted list of a set of strings, as `sorted(words)` returns it. */
  ghost function SortedOf(S: set<string>): (r: seq<string>)
    ensures StrictlyAscending(r)
    ensures |r| == |S|
    ensures forall x :: x in r <==> x in S
    decreases |S|
  {
    if S == {} then []
    else
      LeastExists(S);
      var m :| IsLeast(m, S);
      LeastBeforeOthers(m, S);
      var tail := SortedOf(S - {m});
      assert forall j :: 0 <= j < |tail| ==> tail[j] in tail;
      assert forall j :: 0 <= j < |tail| ==> Less(m, tail[j]);
      [m] + tail
  }

  /** A set has only one strictly ascending listing. */
  lemma {:induction false} AscendingUnique(p: seq<string>, q: seq<string>)
    requires StrictlyAscending(p) && StrictlyAscending(q)
    requires forall x :: x in p <==> x in q
    ensures p == q
  {
    if p != [] { assert p[0] in q; }
    if q != [] { assert q[0] in p; }
    if p != [] && q != [] {
      assert p[0] in p && q[0] in q;
      if p[0] != q[0] {
        var k :| 0 <= k < |q| && q[k] == p[0];
        var k' :| 0 <= k' < |p| && p[k'] == q[0];
        assert Less(q[0], p[0]);
        LessAsymmetric(q[0], p[0]);
        assert false;
      }
      forall x ensures x in p[1..] <==> x in q[1..] {
        LessIrreflexive(x);
        if x in p[1..] {
          var i :| 1 <= i < |p| && p[i] == x;
          assert Less(p[0], x) && x in p;
          var j :| 0 <= j < |q| && q[j] == x;
          assert j != 0 && q[1..][j - 1] == x;
        }
        if x in q[1..] {
          var i :| 1 <= i < |q| && q[i] == x;
          assert Less(q[0], x) && x in q;
          var j :| 0 <= j < |p| && p[j] == x;
          assert j != 0 && p[1..][j - 1] == x;
        }
      }
      AscendingUnique(p[1..], q[1..]);
      assert p == [p[0]] + p[1..] && q == [q[0]] + q[1..];
    }
  }

  /** `sorted(S)`: repeatedly takes the least element left. */
  method Sort(S: set<string>) returns (r: seq<string>)
    ensures r == SortedOf(S)
  {
    r := [];
    var rest := S;
    while rest != {}
      invariant rest <= S
      invariant StrictlyAscending(r)
      invariant forall x :: x in r <==> x in S && x !in rest
      invariant forall i, y :: 0 <= i < |r| && y in rest ==> Less(r[i], y)
      decreases |rest|
    {
      LeastExists(rest);
      var m :| IsLeast(m, rest);
      LeastBeforeOthers(m, rest);
      r := r + [m];
      rest := rest - {m};
    }
    AscendingUnique(r, SortedOf(S));
  }

  function Min(a: int, b: int): int { if a <= b then a else b }

  /** Python's slice `s[:k]`: a negative k counts from the end. */
  function PyTake(s: seq<string>, k: int): (r: seq<string>)
    ensures r <= s
    ensures 0 <= k ==> |r| == Min(k, |s|)
    ensures k < 0 ==> |r| == if |s| + k < 0 then 0 else |s| + k
  {
    if 0 <= k then (if k <= |s| then s[..k] else s)
    else if 0 <= |s| + k then s[..|s| + k]
    else []
  }

  /** A cut of an ascending sequence is ascending, and for k >= 0 each
      entry kept sorts before each entry dropped. */
  lemma TakeAscending(s: seq<string>, k: int)
    requires StrictlyAscending(s)
    ensures StrictlyAscending(PyTake(s, k))
    ensures 0 <= k ==> forall x, y :: x in PyTake(s, k) && y in s && y !in PyTake(s, k) ==> Less(x, y)
  {
    var r := PyTake(s, k);
    assert forall i :: 0 <= i < |r| ==> r[i] == s[i];
    if 0 <= k {
      forall x, y | x in r && y in s && y !in r ensures Less(x, y) {
        var i :| 0 <= i < |r| && r[i] == x;
        var j :| 0 <= j < |s| && s[j] == y;
        if j < |r| { assert r[j] == y; }
      }
    }
  }

  /** The sorted list of S cut to its first k entries: ascending, drawn
      from S, and for k >= 0 exactly the min(k, |S|) least elements. */
  lemma SortedTake(S: set<string>, k: int)
    ensures StrictlyAscending(PyTake(SortedOf(S), k))
    ensures forall x :: x in PyTake(SortedOf(S), k) ==> x in S
    ensures 0 <= k ==> |PyTake(SortedOf(S), k)| == Min(k, |S|)
    ensures 0 <= k ==> forall x, y :: x in PyTake(SortedOf(S), k) && y in S && y !in PyTake(SortedOf(S), k) ==> Less(x, y)
  {
    var s := SortedOf(S);
    var r := PyTake(s, k);
    TakeAscending(s, k);
    forall x | x in r ensures x in S {
      var i :| 0 <= i < |r| && r[i] == x;
      assert s[i] == x;
    }
  }
}
