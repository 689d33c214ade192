/** Finite unions indexed by a sequence: the shape shared by every
    "for x in xs: words.add(...)" loop of the generator. */
module Unions {

  /** The union of f(x) over the elements x of xs, built up in the order
      in which a loop over xs visits them. */
  function UnionMap<T>(xs: seq<T>, f: T -> set<string>): set<string>
  {
    if xs == [] then {} else UnionMap(xs[..|xs| - 1], f) + f(xs[|xs| - 1])
  }

  /** u is in the union exactly when it is in f(x) for some element x of xs. */
  lemma {:induction false} UnionMapMember<T>(xs: seq<T>, f: T -> set<string>, u: string)
    ensures u in UnionMap(xs, f) <==> exists i :: 0 <= i < |xs| && u in f(xs[i])
  {
    if xs != [] {
      var init := xs[..|xs| - 1];
      UnionMapMember(init, f, u);
      assert forall i :: 0 <= i < |init| ==> init[i] == xs[i];
    }
  }

  /** u is in the union when it is in f(xs[i]). */
  lemma UnionMapHas<T>(xs: seq<T>, f: T -> set<string>, i: nat, u: string)
    requires i < |xs| && u in f(xs[i])
    ensures u in UnionMap(xs, f)
  {
    UnionMapMember(xs, f, u);
  }

  /** One more loop iteration adds exactly f of the next element. */
  lemma UnionMapStep<T>(xs: seq<T>, f: T -> set<string>, i: nat)
    requires i < |xs|
    ensures UnionMap(xs[..i + 1], f) == UnionMap(xs[..i], f) + f(xs[i])
  {
    assert xs[..i + 1][..i] == xs[..i];
  }

  /** UnionMap agrees with the order-free union over the elements of xs. */
  lemma UnionMapIsUnion<T>(xs: seq<T>, f: T -> set<string>)
    ensures UnionMap(xs, f) == set x, u | x in xs && u in f(x) :: u
  {
    var r := set x, u | x in xs && u in f(x) :: u;
    forall u | u in r ensures u in UnionMap(xs, f) {
      var x :| x in xs && u in f(x);
      var i :| 0 <= i < |xs| && xs[i] == x;
      UnionMapHas(xs, f, i, u);
    }
    forall u | u in UnionMap(xs, f) ensures u in r {
      UnionMapMember(xs, f, u);
      var i :| 0 <= i < |xs| && u in f(xs[i]);
      assert xs[i] in xs;
    }
  }

  /** The union over a prefix of xs is part of the union over xs. */
  lemma UnionMapPrefix<T>(xs: seq<T>, f: T -> set<string>, j: nat, u: string)
    requires j <= |xs| && u in UnionMap(xs[..j], f)
    ensures u in UnionMap(xs, f)
  {
    UnionMapMember(xs[..j], f, u);
    var i :| 0 <= i < j && u in f(xs[..j][i]);
    assert xs[..j][i] == xs[i];
    UnionMapHas(xs, f, i, u);
  }

  /** The union over a prefix of xs is part of the union over xs. */
  lemma UnionMapPrefixWithin<T>(xs: seq<T>, f: T -> set<string>, j: nat)
    requires j <= |xs|
    ensures UnionMap(xs[..j], f) <= UnionMap(xs, f)
  {
    forall u | u in UnionMap(xs[..j], f) ensures u in UnionMap(xs, f) {
      UnionMapPrefix(xs, f, j, u);
    }
  }

  /** A subset is no larger than its superset. */
  lemma {:induction false} SubsetSize(a: set<string>, b: set<string>)
    requires a <= b
    ensures |a| <= |b|
    decreases |a|
  {
    if a != {} {
      var x :| x in a;
      SubsetSize(a - {x}, b - {x});
    }
  }
}
