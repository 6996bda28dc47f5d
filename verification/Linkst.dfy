/** The link states between the sessions of a network: a triangular matrix that grows on
    demand, standing for a set of unordered pairs of session ids. */
module Linkst {
  datatype LinkInfo = LinkInfo(linked: bool, timestamp: int)

  /** The unordered pair of `a` and `b`, larger number first. */
  function Pair(a: nat, b: nat): (nat, nat) {
    if a > b then (a, b) else (b, a)
  }

  /** Two pairs are the same exactly when they have the same ids, in either order. */
  lemma SamePair(a: nat, b: nat, c: nat, d: nat)
    ensures Pair(a, b) == Pair(c, d) <==> (a == c && b == d) || (a == d && b == c)
  {
  }

  ghost predicate Ordered(pairs: set<(nat, nat)>) {
    forall p :: p in pairs ==> 1 <= p.1 <= p.0
  }

  /** The pairs left when those of `idx` with partners below `i` are gone. */
  ghost function Without(pairs: set<(nat, nat)>, idx: nat, i: nat): set<(nat, nat)> {
    set p | p in pairs && !(p.0 == idx && p.1 < i) && !(p.1 == idx && p.0 < i)
  }

  lemma WithoutStep(pairs: set<(nat, nat)>, idx: nat, i: nat)
    requires Ordered(pairs)
    ensures Without(pairs, idx, i + 1) == Without(pairs, idx, i) - {Pair(idx, i)}
    ensures Without(pairs, idx, 1) == pairs
  {
  }

  lemma WithoutAll(pairs: set<(nat, nat)>, idx: nat, i: nat)
    requires forall p :: p in pairs ==> p.0 < i && p.1 < i
    ensures Without(pairs, idx, i) == set p | p in pairs && p.0 != idx && p.1 != idx
  {
  }

  class LinkState {
    /** Row `x` holds the states between id x+1 and the ids 1 .. x+1. */
    var adjacencyMatrix: seq<array<LinkInfo>>
    var matrixSize: nat
    const upperLimit: nat

    constructor (upperLimit: nat)
      ensures Valid() && Pairs() == {} && this.upperLimit == upperLimit && adjacencyMatrix == []
    {
      this.upperLimit := upperLimit;
      adjacencyMatrix, matrixSize := [], 0;
    }

    ghost predicate Valid()
      reads this, adjacencyMatrix
    {
      |adjacencyMatrix| == matrixSize <= upperLimit &&
      (forall i :: 0 <= i < matrixSize ==> adjacencyMatrix[i].Length == i + 1) &&
      (forall i, j :: 0 <= i < j < matrixSize ==> adjacencyMatrix[i] != adjacencyMatrix[j])
    }

    ghost predicate Linked(p: (nat, nat))
      reads this, adjacencyMatrix
      requires Valid()
    {
      1 <= p.1 <= p.0 <= matrixSize && adjacencyMatrix[p.0 - 1][p.1 - 1].linked
    }

    /** The pairs joined, of ids in 1 .. matrixSize. */
    ghost function Pairs(): set<(nat, nat)>
      reads this, adjacencyMatrix
      requires Valid()
    {
      set x: nat, y: nat | 1 <= x <= matrixSize && 1 <= y <= x && Linked((x, y)) :: (x, y)
    }

    lemma InPairs(p: (nat, nat))
      requires Valid()
      ensures p in Pairs() <==> Linked(p)
    {
      assert p == (p.0, p.1);
    }

    lemma PairBounds()
      requires Valid()
      ensures Ordered(Pairs()) && forall p :: p in Pairs() ==> p.0 < matrixSize + 1 && p.1 < matrixSize + 1
    {
      forall p | p in Pairs() { InPairs(p); }
    }

    /** An id outside the matrix is in no pair. */
    lemma NoPairsOf(idx: nat)
      requires Valid() && (idx < 1 || idx > matrixSize)
      ensures forall p :: p in Pairs() ==> p.0 != idx && p.1 != idx
    {
      forall p | p in Pairs() { InPairs(p); }
    }

    /** linkst_resize: adds empty rows, a few more than asked for while the limit allows. */
    method Resize(resizeSize: nat)
      requires Valid() && matrixSize + resizeSize <= upperLimit
      modifies this
      ensures Valid() && Pairs() == old(Pairs())
      ensures matrixSize >= old(matrixSize) + resizeSize
      ensures old(matrixSize) + resizeSize + 5 < upperLimit ==> matrixSize == old(matrixSize) + resizeSize + 5
      ensures old(matrixSize) + resizeSize + 5 >= upperLimit ==> matrixSize == upperLimit
      ensures fresh(set a | a in adjacencyMatrix && a !in old(adjacencyMatrix))
    {
      var grow := if matrixSize + resizeSize + 5 < upperLimit then resizeSize + 5 else upperLimit - matrixSize;
      var matrix := adjacencyMatrix;
      var i := matrixSize;
      while i < matrixSize + grow
        invariant matrixSize <= i <= matrixSize + grow && |matrix| == i
        invariant unchanged(this) && matrix[..matrixSize] == adjacencyMatrix
        invariant forall k :: matrixSize <= k < i ==> fresh(matrix[k]) && matrix[k].Length == k + 1
        invariant forall k, l :: matrixSize <= k < i && 0 <= l <= k ==> matrix[k][l] == LinkInfo(false, 0)
        invariant forall k, l :: 0 <= k < l < i ==> matrix[k] != matrix[l]
        invariant forall k :: 0 <= k < matrixSize ==> unchanged(adjacencyMatrix[k])
      {
        var row := new LinkInfo[i + 1](_ => LinkInfo(false, 0));
        matrix := matrix + [row];
        i := i + 1;
      }
      adjacencyMatrix, matrixSize := matrix, matrixSize + grow;
      forall k | 0 <= k < old(matrixSize)
        ensures adjacencyMatrix[k] == old(adjacencyMatrix)[k]
      {
        assert matrix[k] == matrix[..old(matrixSize)][k];
      }
      forall p: (nat, nat)
        ensures p in Pairs() <==> p in old(Pairs())
      {
        InPairs(p);
        InPairsOld(p);
      }
    }

    twostate lemma InPairsOld(p: (nat, nat))
      requires old(Valid())
      ensures p in old(Pairs()) <==> old(Linked(p))
    {
      assert p == (p.0, p.1);
    }

    /** Writes one cell of the matrix. */
    method SetCell(x: nat, y: nat, info: LinkInfo)
      requires Valid() && 1 <= y <= x <= matrixSize
      modifies adjacencyMatrix[x - 1]
      ensures Valid() && Pairs() == if info.linked then old(Pairs()) + {(x, y)} else old(Pairs()) - {(x, y)}
    {
      adjacencyMatrix[x - 1][y - 1] := info;
      forall p: (nat, nat)
        ensures p in Pairs() <==> if p == (x, y) then info.linked else p in old(Pairs())
      {
        InPairs(p);
        InPairsOld(p);
      }
    }

    /** Clears one cell if it is set. */
    method ClearCell(x: nat, y: nat)
      requires Valid() && 1 <= y <= x <= matrixSize
      modifies adjacencyMatrix[x - 1]
      ensures Valid() && Pairs() == old(Pairs()) - {(x, y)}
    {
      InPairs((x, y));
      hide LinkState.Pairs;
      if adjacencyMatrix[x - 1][y - 1].linked {
        SetCell(x, y, LinkInfo(false, 0));
      }
    }

    /** linkst_joined: 1 for a joined pair, 0 for one that is not, -1 for ids outside the matrix. */
    method Joined(a: nat, b: nat) returns (ret: int)
      requires Valid()
      ensures ret == 1 <==> Pair(a, b) in Pairs()
      ensures ret == -1 <==> a < 1 || a > matrixSize || b < 1 || b > matrixSize
      ensures ret == 1 || ret == 0 || ret == -1
    {
      InPairs(Pair(a, b));
      if a < 1 || a > matrixSize || b < 1 || b > matrixSize {
        return -1;
      }
      var x, y;
      if a > b {
        x, y := a, b;
      } else {
        x, y := b, a;
      }
      if adjacencyMatrix[x - 1][y - 1].linked {
        return 1;
      }
      return 0;
    }

    /** linkst_join: adds the pair, growing the matrix when needed. */
    method Join(a: nat, b: nat, now: int) returns (ret: int)
      requires Valid()
      modifies this, adjacencyMatrix
      ensures Valid()
      ensures ret == if 1 <= a <= upperLimit && 1 <= b <= upperLimit then 0 else -1
      ensures Pairs() == if ret == 0 then old(Pairs()) + {Pair(a, b)} else old(Pairs())
      ensures fresh(set r | r in adjacencyMatrix && r !in old(adjacencyMatrix))
    {
      if a < 1 || a > upperLimit || b < 1 || b > upperLimit {
        return -1;
      }
      var x, y;
      if a > b {
        x, y := a, b;
      } else {
        x, y := b, a;
      }
      if x >= matrixSize {
        Resize(x - matrixSize);
      }
      SetCell(x, y, LinkInfo(true, now));
      ret := 0;
    }

    /** linkst_disjoin: drops every pair with `idx` in it. */
    method Disjoin(idx: nat) returns (ret: int)
      requires Valid()
      modifies adjacencyMatrix
      ensures Valid()
      ensures ret == if 1 <= idx <= matrixSize then 0 else -1
      ensures Pairs() == set p | p in old(Pairs()) && p.0 != idx && p.1 != idx
    {
      if idx < 1 || idx > matrixSize {
        NoPairsOf(idx);
        return -1;
      }
      PairBounds();
      WithoutStep(Pairs(), idx, 1);
      WithoutAll(Pairs(), idx, matrixSize + 1);
      hide Without, Ordered, LinkState.Pairs;
      var i := 1;
      while i <= matrixSize
        invariant 1 <= i <= matrixSize + 1 && Valid()
        invariant Pairs() == Without(old(Pairs()), idx, i)
      {
        var x, y;
        if idx > i {
          x, y := idx, i;
        } else {
          x, y := i, idx;
        }
        WithoutStep(old(Pairs()), idx, i);
        ClearCell(x, y);
        i := i + 1;
      }
      ret := 0;
    }
  }
}
