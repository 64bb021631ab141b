/**
 `sorted(d.items())` over a dictionary with integer keys. A Python dictionary
 remembers the order in which its keys were first inserted; since keys are
 distinct, sorting the items orders them by key alone, so the walk visits the
 keys in ascending order.
 */
module KeyOrder {

  predicate Distinct(ks: seq<int>)
  {
    forall i, j :: 0 <= i < j < |ks| ==> ks[i] != ks[j]
  }

  predicate StrictlyIncreasing(ks: seq<int>)
  {
    forall i, j :: 0 <= i < j < |ks| ==> ks[i] < ks[j]
  }

  /** In a strictly increasing list, a smaller key sits at an earlier position. */
  lemma IncreasingPositions(ks: seq<int>, i: int, j: int)
    requires StrictlyIncreasing(ks) && 0 <= i < |ks| && 0 <= j < |ks|
    requires ks[i] < ks[j]
    ensures i < j
  {
  }

  /** Appending a key not yet listed keeps the keys distinct. */
  lemma DistinctSnoc(ks: seq<int>, k: int)
    requires Distinct(ks) && k !in ks
    ensures Distinct(ks + [k])
  {
    assert forall i :: 0 <= i < |ks| ==> (ks + [k])[i] == ks[i];
  }

  /** Places a new key into an ascending key list. */
  function InsertKey(k: int, ks: seq<int>): (r: seq<int>)
    requires StrictlyIncreasing(ks) && k !in ks
    ensures StrictlyIncreasing(r)
    ensures forall x :: x in r <==> x == k || x in ks
    ensures |r| == |ks| + 1
  {
    if ks == [] || k < ks[0] then [k] + ks
    else
      var rest := InsertKey(k, ks[1..]);
      forall j | 0 <= j < |rest| ensures ks[0] < rest[j] {
        assert rest[j] in rest;
        if rest[j] != k {
          var i :| 0 <= i < |ks[1..]| && ks[1..][i] == rest[j];
          assert ks[i + 1] == rest[j];
        }
      }
      [ks[0]] + rest
  }

  /** The distinct keys `ks` in ascending order, each exactly once. */
  function Ascending(ks: seq<int>): (r: seq<int>)
    requires Distinct(ks)
    ensures StrictlyIncreasing(r)
    ensures forall k :: k in r <==> k in ks
    ensures |r| == |ks|
  {
    if ks == [] then []
    else
      var init, last := ks[..|ks| - 1], ks[|ks| - 1];
      assert last !in init;
      InsertKey(last, Ascending(init))
  }

  /** Two ascending lists holding the same keys are the same list: `Ascending` is the only possible order. */
  lemma {:induction false} AscendingUnique(a: seq<int>, b: seq<int>)
    requires StrictlyIncreasing(a) && StrictlyIncreasing(b)
    requires forall k :: k in a <==> k in b
    ensures a == b
  {
    assert a != [] ==> a[0] in a && a[0] in b;
    assert b != [] ==> b[0] in b && b[0] in a;
    if a != [] && b != [] {
      assert a[0] == b[0];
      forall k ensures k in a[1..] <==> k in b[1..] {
        if k in a[1..] {
          assert k in a && k != a[0];
        }
        if k in b[1..] {
          assert k in b && k != b[0];
        }
      }
      AscendingUnique(a[1..], b[1..]);
    }
  }

  /** A single key is already in order. */
  lemma AscendingOne(k: int)
    ensures Ascending([k]) == [k]
  {
    assert [k][..0] == [];
  }

  /** Two keys first seen in ascending order keep that order. */
  lemma AscendingTwo(k1: int, k2: int)
    requires k1 < k2
    ensures Ascending([k1, k2]) == [k1, k2]
  {
    AscendingOne(k1);
    assert [k1, k2][..1] == [k1] && [k1][1..] == [];
    assert InsertKey(k2, []) == [k2];
    assert InsertKey(k2, [k1]) == [k1] + InsertKey(k2, []);
  }
}
