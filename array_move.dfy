/**
 * `arrayMoveImmutable(array, from, to)` of the `array-move` package, for in-range
 * indices: a copy of the array in which the element at `from` has been taken out
 * and put back in at `to`.
 */
module ArrayMove {

  /** `s` without its element at `i`. */
  function Remove<T>(s: seq<T>, i: nat): (r: seq<T>)
    requires i < |s|
    ensures |r| == |s| - 1
    ensures forall k | 0 <= k < |r| :: r[k] == (if k < i then s[k] else s[k + 1])
  {
    s[..i] + s[i + 1..]
  }

  /** `s` with `x` inserted so that it lands at index `i`. */
  function Insert<T>(s: seq<T>, i: nat, x: T): (r: seq<T>)
    requires i <= |s|
    ensures |r| == |s| + 1 && r[i] == x
    ensures Remove(r, i) == s
  {
    var r := s[..i] + [x] + s[i..];
    assert s == s[..i] + s[i..];
    assert Remove(r, i) == s;
    r
  }

  /** Putting `x` back into `s` adds exactly `x` to its elements. */
  lemma InsertElements<T>(s: seq<T>, i: nat, x: T)
    requires i <= |s|
    ensures multiset(Insert(s, i, x)) == multiset(s) + multiset{x}
  {
    var r := Insert(s, i, x);
    assert r == r[..i] + [x] + r[i + 1..];
    assert Remove(r, i) == r[..i] + r[i + 1..];
  }

  /**
   * The moved copy: same length and elements, the old element at `from` is now at `to`,
   * and taking it out again leaves every other element in its old relative order.
   */
  function Move<T>(s: seq<T>, from: nat, to: nat): (r: seq<T>)
    requires from < |s| && to < |s|
    ensures |r| == |s|
    ensures r[to] == s[from]
    ensures Remove(r, to) == Remove(s, from)
  {
    Insert(Remove(s, from), to, s[from])
  }

  /** A move neither adds nor loses an element: the result is a permutation. */
  lemma MovePermutes<T>(s: seq<T>, from: nat, to: nat)
    requires from < |s| && to < |s|
    ensures multiset(Move(s, from, to)) == multiset(s)
  {
    var t := Remove(s, from);
    assert s == s[..from] + [s[from]] + s[from + 1..];
    assert multiset(s) == multiset(t) + multiset{s[from]};
    InsertElements(t, to, s[from]);
  }

  /** Taking out the element at `i` and inserting it again at `i` gives the list back. */
  lemma InsertRemoved<T>(s: seq<T>, i: nat)
    requires i < |s|
    ensures Insert(Remove(s, i), i, s[i]) == s
  {
    var r := Insert(Remove(s, i), i, s[i]);
    assert forall k | 0 <= k < |s| :: r[k] == s[k] by {
      forall k | 0 <= k < |s|
        ensures r[k] == s[k]
      {
        if k != i {
          assert Remove(r, i) == Remove(s, i);
          if k < i {
            assert Remove(r, i)[k] == r[k];
          } else {
            assert Remove(r, i)[k - 1] == r[k];
          }
        }
      }
    }
  }

  /** Moving an element onto its own index changes nothing. */
  lemma MoveToSelf<T>(s: seq<T>, i: nat)
    requires i < |s|
    ensures Move(s, i, i) == s
  {
    InsertRemoved(s, i);
  }

  /** Moving from `i` to `j` and then back from `j` to `i` restores the original list. */
  lemma MoveBack<T>(s: seq<T>, i: nat, j: nat)
    requires i < |s| && j < |s|
    ensures Move(Move(s, i, j), j, i) == s
  {
    var r := Move(s, i, j);
    assert Move(r, j, i) == Insert(Remove(s, i), i, s[i]);
    InsertRemoved(s, i);
  }

  /** The index in the original list of the element that a move from `from` to `to` puts at `k`. */
  function SourceIndex(from: nat, to: nat, k: nat): nat {
    if k == to then from
    else if from < to && from <= k < to then k + 1
    else if to < from && to < k <= from then k - 1
    else k
  }

  /**
   * Position by position: the moved element lands at `to`, the elements between the two
   * indices shift by one towards `from`, and every element outside them stays put.
   */
  lemma MovePositions<T>(s: seq<T>, from: nat, to: nat)
    requires from < |s| && to < |s|
    ensures forall k | 0 <= k < |s| :: SourceIndex(from, to, k) < |s| && Move(s, from, to)[k] == s[SourceIndex(from, to, k)]
  {
    forall k | 0 <= k < |s|
      ensures SourceIndex(from, to, k) < |s| && Move(s, from, to)[k] == s[SourceIndex(from, to, k)]
    {
      MovedAt(s, from, to, k);
    }
  }

  lemma MovedAt<T>(s: seq<T>, from: nat, to: nat, k: nat)
    requires from < |s| && to < |s| && k < |s|
    ensures SourceIndex(from, to, k) < |s| && Move(s, from, to)[k] == s[SourceIndex(from, to, k)]
  {
    var r := Move(s, from, to);
    var t := Remove(s, from);
    if k < to {
      assert r[k] == Remove(r, to)[k] == t[k];
    } else if k > to {
      assert r[k] == Remove(r, to)[k - 1] == t[k - 1];
    }
  }

  /** Dragging the last of three items to the front: [A, B, C] becomes [C, A, B]. */
  lemma MoveLastToFront()
    ensures Move(['A', 'B', 'C'], 2, 0) == ['C', 'A', 'B']
  {
    MovePositions(['A', 'B', 'C'], 2, 0);
  }
}
