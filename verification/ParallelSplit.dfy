/** Splitting the specs over parallel nodes. */
module ParallelSplit {

  /** The first index and the number of specs of a node; nodes are counted from 1. */
  function ParallelizedIndexRange(length: nat, total: nat, node: nat): (r: (nat, nat))
    requires 1 <= node <= total
  {
    if length == 0 then (0, 0)
    else if total >= length then if node > length then (0, 0) else (node - 1, 1)
    else
      var minTestsPerNode := length / total;
      var maxTestsPerNode := if length % total != 0 then minTestsPerNode + 1 else minTestsPerNode;
      var numMaxLoadNodes := length % total;
      var numPrecedingMaxLoadNodes := if node > numMaxLoadNodes then numMaxLoadNodes else node - 1;
      var numPrecedingMinLoadNodes := if node <= numMaxLoadNodes then 0 else node - numMaxLoadNodes - 1;
      (numPrecedingMaxLoadNodes * maxTestsPerNode + numPrecedingMinLoadNodes * minTestsPerNode,
       if node > numMaxLoadNodes then minTestsPerNode else maxTestsPerNode)
  }

  /** How many specs the nodes up to and including `node` run. */
  function Upto(length: nat, total: nat, node: nat): nat
    requires node <= total && total >= 1
  {
    if total >= length then if node <= length then node else length
    else
      var q, r := length / total, length % total;
      if node <= r then node * (q + 1) else r * (q + 1) + (node - r) * q
  }

  lemma UptoTotal(length: nat, total: nat)
    requires total >= 1
    ensures Upto(length, total, total) == length && Upto(length, total, 0) == 0
  {
    var q, r := length / total, length % total;
    assert length == total * q + r;
    assert r * (q + 1) + (total - r) * q == total * q + r;
  }

  lemma MinusOne(k: nat, q: nat)
    requires k >= 1
    ensures k * q == (k - 1) * q + q
  {
  }

  /** Each node starts where the previous ones end and runs its share. */
  lemma RangeFollows(length: nat, total: nat, node: nat)
    requires 1 <= node <= total
    ensures var (start, count) := ParallelizedIndexRange(length, total, node);
      && Upto(length, total, node) == Upto(length, total, node - 1) + count
      && (count > 0 ==> start == Upto(length, total, node - 1))
  {
    if total < length {
      var q, r := length / total, length % total;
      if node <= r {
        MinusOne(node, q + 1);
      } else {
        MinusOne(node - r, q);
        assert node == r + 1 ==> (node - 1) * (q + 1) == r * (q + 1);
      }
    }
  }

  lemma {:induction false} UptoBound(length: nat, total: nat, node: nat)
    requires node <= total && total >= 1
    ensures Upto(length, total, node) <= length
    decreases total - node
  {
    if node == total {
      UptoTotal(length, total);
    } else {
      RangeFollows(length, total, node + 1);
      UptoBound(length, total, node + 1);
    }
  }

  /** The loads of any two nodes differ by at most one. */
  lemma Balanced(length: nat, total: nat, node: nat, other: nat)
    requires 1 <= node <= total && 1 <= other <= total
    ensures ParallelizedIndexRange(length, total, node).1 <= ParallelizedIndexRange(length, total, other).1 + 1
  {
  }

  /** What TrimForParallelization keeps. */
  function Share<T>(specs: seq<T>, total: nat, node: nat): seq<T>
    requires 1 <= node <= total
  {
    var (start, count) := ParallelizedIndexRange(|specs|, total, node);
    RangeFollows(|specs|, total, node);
    UptoBound(|specs|, total, node);
    if count == 0 then [] else specs[start..start+count]
  }

  /** The shares of the nodes 1 to n, one after the other. */
  function Shares<T>(specs: seq<T>, total: nat, n: nat): seq<T>
    requires n <= total && total >= 1
  {
    if n == 0 then [] else Shares(specs, total, n - 1) + Share(specs, total, n)
  }

  lemma {:induction false} SharesAre<T>(specs: seq<T>, total: nat, n: nat)
    requires n <= total && total >= 1
    ensures Upto(|specs|, total, n) <= |specs| && Shares(specs, total, n) == specs[..Upto(|specs|, total, n)]
  {
    UptoBound(|specs|, total, n);
    if n > 0 {
      SharesAre(specs, total, n - 1);
      RangeFollows(|specs|, total, n);
    } else {
      UptoTotal(|specs|, total);
    }
  }

  /** The shares of all nodes, in order, make up the original list: every spec is run by exactly
      one node. */
  lemma SharesPartition<T>(specs: seq<T>, total: nat)
    requires total >= 1
    ensures Shares(specs, total, total) == specs
  {
    SharesAre(specs, total, total);
    UptoTotal(|specs|, total);
    assert specs[..|specs|] == specs;
  }

  class Specs<T> {
    var specs: seq<T>

    constructor (specs: seq<T>)
      ensures this.specs == specs
    {
      this.specs := specs;
    }

    method TrimForParallelization(total: nat, node: nat)
      requires 1 <= node <= total
      modifies this
      ensures specs == Share(old(specs), total, node)
    {
      var (startIndex, count) := ParallelizedIndexRange(|specs|, total, node);
      if count == 0 {
        specs := [];
      } else {
        RangeFollows(|specs|, total, node);
        UptoBound(|specs|, total, node);
        specs := specs[startIndex..startIndex+count];
      }
    }
  }
}
