/** Lists of positions: which elements of a sequence are wanted, in order. */
module Positions {
  /** The wanted positions, each once, in order. */
  ghost predicate Lists(p: seq<nat>, wanted: set<nat>) {
    && (forall i, j | 0 <= i < j < |p| :: p[i] < p[j])
    && (forall k :: k in p <==> k in wanted)
  }

  lemma NothingToList(wanted: set<nat>)
    requires wanted == {}
    ensures Lists([], wanted)
  {
  }

  lemma ListsLast(p: seq<nat>, before: set<nat>, n: nat, wanted: set<nat>)
    requires Lists(p, before) && (forall k | k in before :: k < n) && wanted == before + {n}
    ensures Lists(p + [n], wanted)
  {
    assert forall i | 0 <= i < |p| :: p[i] in p;
  }

  function Shifted(p: seq<nat>): (s: seq<nat>)
    ensures |s| == |p| && forall i :: 0 <= i < |p| ==> s[i] == p[i] + 1
  {
    seq(|p|, i requires 0 <= i < |p| => p[i] + 1)
  }

  lemma InShifted(p: seq<nat>, k: nat)
    ensures k in Shifted(p) <==> k > 0 && k - 1 in p
  {
    if k > 0 && k - 1 in p {
      var i :| 0 <= i < |p| && p[i] == k - 1;
      assert Shifted(p)[i] == k;
    }
  }

  /** Positions behind a first file, which may be wanted itself. */
  lemma ListsBehind(p: seq<nat>, rest: set<nat>, first: bool, wanted: set<nat>)
    requires Lists(p, rest) && forall k: nat :: k in wanted <==> if k == 0 then first else k - 1 in rest
    ensures Lists((if first then [0] else []) + Shifted(p), wanted)
  {
    var head: seq<nat> := if first then [0] else [];
    var all := head + Shifted(p);
    forall k: nat
      ensures k in all <==> k in wanted
    {
      InShifted(p, k);
    }
  }

  /** The result is the elements at the wanted positions, in order. */
  ghost predicate IsPicked<T>(s: seq<T>, wanted: set<nat>, result: seq<T>) {
    exists p :: Lists(p, wanted) && ArePicked(s, p, result)
  }

  predicate ArePicked<T(==)>(s: seq<T>, p: seq<nat>, result: seq<T>) {
    |result| == |p| && forall i | 0 <= i < |p| :: p[i] < |s| && result[i] == s[p[i]]
  }

  lemma PicksBehind<T>(s: seq<T>, rest: set<nat>, tail: seq<T>, first: bool, wanted: set<nat>)
    requires s != [] && IsPicked(s[1..], rest, tail)
    requires forall k: nat :: k in wanted <==> if k == 0 then first else k - 1 in rest
    ensures IsPicked(s, wanted, (if first then [s[0]] else []) + tail)
  {
    hide Lists;
    var p :| Lists(p, rest) && ArePicked(s[1..], p, tail);
    ListsBehind(p, rest, first, wanted);
    assert ArePicked(s, (if first then [0] else []) + Shifted(p), (if first then [s[0]] else []) + tail);
  }

  lemma NothingPicked<T>(wanted: set<nat>)
    requires wanted == {}
    ensures IsPicked<T>([], wanted, [])
  {
    NothingToList(wanted);
    assert ArePicked<T>([], [], []);
  }
}
