/** Counting the `active` presentation classes of a node list. */
module Flags {

  /** Number of elements whose flag is set. */
  function CountTrue(s: seq<bool>): (n: nat)
    ensures n <= |s|
    ensures n == 0 <==> forall i :: 0 <= i < |s| ==> !s[i]
  {
    if s == [] then 0 else (if s[0] then 1 else 0) + CountTrue(s[1..])
  }

  /** At most one element is active: any two active elements are the same one. */
  predicate AtMostOne(s: seq<bool>)
  {
    forall i, j :: 0 <= i < |s| && 0 <= j < |s| && s[i] && s[j] ==> i == j
  }

  /** Exactly element `k` is active. */
  predicate OnlyActive(s: seq<bool>, k: int)
  {
    0 <= k < |s| && s[k] && forall j :: 0 <= j < |s| && j != k ==> !s[j]
  }

  /** The flags where exactly element `k` of `n` is active. */
  function Selected(n: nat, k: nat): (r: seq<bool>)
    requires k < n
    ensures |r| == n && OnlyActive(r, k)
  {
    seq(n, j requires 0 <= j < n => j == k)
  }

  /** The counting form and the pairwise form of "at most one active" agree. */
  lemma {:induction false} AtMostOneIffCount(s: seq<bool>)
    ensures AtMostOne(s) <==> CountTrue(s) <= 1
  {
    if s != [] {
      AtMostOneIffCount(s[1..]);
      if s[0] {
        if AtMostOne(s) {
          assert forall i :: 1 <= i < |s| ==> !s[i];
          assert forall i :: 0 <= i < |s[1..]| ==> s[1..][i] == s[i + 1];
        } else {
          var i, j :| 0 <= i < |s| && 0 <= j < |s| && s[i] && s[j] && i != j;
          var k := if i != 0 then i else j;
          assert s[1..][k - 1];
        }
      } else {
        if AtMostOne(s[1..]) {
          forall i, j | 0 <= i < |s| && 0 <= j < |s| && s[i] && s[j] ensures i == j {
            assert s[1..][i - 1] && s[1..][j - 1];
          }
        } else {
          var i, j :| 0 <= i < |s[1..]| && 0 <= j < |s[1..]| && s[1..][i] && s[1..][j] && i != j;
          assert s[i + 1] && s[j + 1];
        }
      }
    }
  }

  /** When exactly one element is active, the count of active elements is one. */
  lemma {:induction false} OnlyActiveCount(s: seq<bool>, k: int)
    requires OnlyActive(s, k)
    ensures CountTrue(s) == 1
  {
    if k == 0 {
      assert CountTrue(s[1..]) == 0;
    } else {
      assert s[0] == false;
      OnlyActiveCount(s[1..], k - 1);
    }
  }
}
