/** Transaction-Merkle trees and inclusion branches over a given SHA-256. */
module Merkle {
  import opened Wrappers
  import opened ByteStrings

  /** SHA-256 is any function from octet strings to 32-octet strings. */
  type Sha = Bytes -> Bytes

  ghost predicate Sized(sha: Sha) {
    forall b :: |sha(b)| == 32
  }

  ghost predicate Collision(sha: Sha, a: Bytes, b: Bytes) {
    a != b && sha(a) == sha(b)
  }

  function Hash256(sha: Sha, b: Bytes): Bytes {
    sha(sha(b))
  }

  function Parent(sha: Sha, left: Bytes, right: Bytes): Bytes {
    Hash256(sha, left + right)
  }

  /** An odd level repeats its last node. */
  function Padded(level: seq<Bytes>): (r: seq<Bytes>)
    ensures |r| % 2 == 0 && |level| <= |r| <= |level| + 1 && level <= r
  {
    if |level| % 2 == 1 then level + [level[|level| - 1]] else level
  }

  function NextLevel(sha: Sha, level: seq<Bytes>): (r: seq<Bytes>)
    ensures |r| == (|level| + 1) / 2
  {
    var p := Padded(level);
    seq(|p| / 2, i requires 0 <= i < |p| / 2 => Parent(sha, p[2 * i], p[2 * i + 1]))
  }

  function RootOf(sha: Sha, level: seq<Bytes>): Bytes
    requires level != []
    decreases |level|
  {
    if |level| == 1 then level[0] else RootOf(sha, NextLevel(sha, level))
  }

  function Sibling(i: nat): nat {
    if i % 2 == 0 then i + 1 else i - 1
  }

  lemma SiblingInside(i: nat, n: nat)
    requires i < n && n % 2 == 0
    ensures Sibling(i) < n
  {
  }

  function BranchOf(sha: Sha, level: seq<Bytes>, index: nat): seq<Bytes>
    requires index < |level|
    decreases |level|
  {
    if |level| == 1 then []
    else [Padded(level)[Sibling(index)]] + BranchOf(sha, NextLevel(sha, level), index / 2)
  }

  /** Go's division by two, towards zero. */
  function Half(i: int): int {
    if i >= 0 then i / 2 else -((-i) / 2)
  }

  function Step(sha: Sha, h: Bytes, sib: Bytes, index: int): Bytes {
    if index % 2 == 0 then Parent(sha, h, sib) else Parent(sha, sib, h)
  }

  function Fold(sha: Sha, h: Bytes, branch: seq<Bytes>, index: int): Bytes
    decreases |branch|
  {
    if branch == [] then h else Fold(sha, Step(sha, h, branch[0], index), branch[1..], Half(index))
  }

  // ---------------------------------------------------------------- what a root is

  // The next three lemmas say what the root of every block is, with no more than SHA-256.

  lemma RootOfOne(sha: Sha, leaf: Bytes)
    ensures RootOf(sha, [leaf]) == leaf
  {
  }

  /** An odd number of leaves counts as if the last one stood twice. */
  lemma RootOfOdd(sha: Sha, leaves: seq<Bytes>)
    requires |leaves| > 1 && |leaves| % 2 == 1
    ensures RootOf(sha, leaves) == RootOf(sha, leaves + [leaves[|leaves| - 1]])
  {
    var even := leaves + [leaves[|leaves| - 1]];
    assert Padded(even) == even == Padded(leaves);
    assert NextLevel(sha, leaves) == NextLevel(sha, even);
  }

  /** An even number of leaves has the root of the double hashes of its pairs. */
  lemma RootOfEven(sha: Sha, leaves: seq<Bytes>, pairs: seq<Bytes>)
    requires leaves != [] && |leaves| == 2 * |pairs|
    requires forall i :: 0 <= i < |pairs| ==> pairs[i] == sha(sha(leaves[2 * i] + leaves[2 * i + 1]))
    ensures RootOf(sha, leaves) == RootOf(sha, pairs)
  {
    var next := NextLevel(sha, leaves);
    forall i | 0 <= i < |pairs| ensures next[i] == pairs[i] {
      PairHash(sha, leaves, i);
    }
    assert next == pairs;
  }

  lemma PairHash(sha: Sha, leaves: seq<Bytes>, i: nat)
    requires |leaves| % 2 == 0 && 2 * i + 1 < |leaves|
    ensures i < |NextLevel(sha, leaves)| && NextLevel(sha, leaves)[i] == sha(sha(leaves[2 * i] + leaves[2 * i + 1]))
  {
  }

  lemma RootOfTwo(sha: Sha, a: Bytes, b: Bytes)
    ensures RootOf(sha, [a, b]) == sha(sha(a + b))
  {
    RootOfEven(sha, [a, b], [sha(sha(a + b))]);
  }

  lemma LevelSplits(sha: Sha, a: seq<Bytes>, b: seq<Bytes>)
    requires |a| % 2 == 0 && |b| % 2 == 0
    ensures NextLevel(sha, a + b) == NextLevel(sha, a) + NextLevel(sha, b)
  {
    hide NextLevel;
    var all, m := NextLevel(sha, a + b), |a| / 2;
    forall i | 0 <= i < |all| ensures all[i] == (NextLevel(sha, a) + NextLevel(sha, b))[i] {
      PairHash(sha, a + b, i);
      if i < m {
        PairHash(sha, a, i);
      } else {
        PairHash(sha, b, i - m);
      }
    }
  }

  /** A full tree's root is the double hash of the roots of its halves. */
  lemma {:induction false} RootOfHalves(sha: Sha, left: seq<Bytes>, right: seq<Bytes>, k: nat)
    requires |left| == |right| == Pow2(k) && left != []
    ensures RootOf(sha, left + right) == sha(sha(RootOf(sha, left) + RootOf(sha, right)))
    decreases k
  {
    hide NextLevel;
    if k == 0 {
      assert left + right == [left[0], right[0]];
      RootOfTwo(sha, left[0], right[0]);
    } else {
      Pow2Positive(k - 1);
      LevelSplits(sha, left, right);
      RootOfHalves(sha, NextLevel(sha, left), NextLevel(sha, right), k - 1);
    }
  }

  lemma {:induction false} Pow2Positive(k: nat)
    ensures Pow2(k) > 0
  {
    if k > 0 {
      Pow2Positive(k - 1);
    }
  }

  /** One step up a branch: an even index hashes the sibling on the right, an odd one on the left. */
  lemma OneStep(sha: Sha, h: Bytes, sib: Bytes, rest: seq<Bytes>, index: int)
    ensures index >= 0 && index % 2 == 0 ==>
      Fold(sha, h, [sib] + rest, index) == Fold(sha, sha(sha(h + sib)), rest, index / 2)
    ensures index >= 0 && index % 2 == 1 ==>
      Fold(sha, h, [sib] + rest, index) == Fold(sha, sha(sha(sib + h)), rest, (index - 1) / 2)
    ensures index < 0 && index % 2 == 0 ==>
      Fold(sha, h, [sib] + rest, index) == Fold(sha, sha(sha(h + sib)), rest, index / 2)
    ensures index < 0 && index % 2 == 1 ==>
      Fold(sha, h, [sib] + rest, index) == Fold(sha, sha(sha(sib + h)), rest, (index + 1) / 2)
    ensures Fold(sha, h, [], index) == h
  {
    assert ([sib] + rest)[1..] == rest;
  }

  // ---------------------------------------------------------------- the loops

  /** Hashes the pairs of a level that has been padded. */
  method HashLevel(sha: Sha, padded: seq<Bytes>, ghost level: seq<Bytes>) returns (next: seq<Bytes>)
    requires padded == Padded(level)
    ensures next == NextLevel(sha, level)
  {
    next := [];
    var i := 0;
    while i < |padded|
      invariant 0 <= i <= |padded| && i % 2 == 0 && |next| == i / 2
      invariant forall k :: 0 <= k < i / 2 ==> next[k] == Parent(sha, padded[2 * k], padded[2 * k + 1])
    {
      next := next + [Hash256(sha, padded[i] + padded[i + 1])];
      i := i + 2;
    }
  }

  /** The nil slice of the source is the empty octet string. */
  method MerkleRoot(sha: Sha, leaves: seq<Bytes>) returns (root: Bytes)
    ensures root == if leaves == [] then [] else RootOf(sha, leaves)
  {
    if leaves == [] {
      return [];
    }
    var level := leaves;
    while |level| > 1
      invariant level != [] && RootOf(sha, level) == RootOf(sha, leaves)
      decreases |level|
    {
      ghost var before := level;
      if |level| % 2 == 1 {
        level := level + [level[|level| - 1]];
      }
      level := HashLevel(sha, level, before);
    }
    return level[0];
  }

  /** The branch with what was collected so far in front. */
  ghost function BranchAfter(sha: Sha, sofar: seq<Bytes>, level: seq<Bytes>, index: nat): seq<Bytes>
    requires index < |level|
    decreases |level|
  {
    if |level| == 1 then sofar
    else BranchAfter(sha, sofar + [Padded(level)[Sibling(index)]], NextLevel(sha, level), index / 2)
  }

  lemma {:induction false} BranchAfterIs(sha: Sha, sofar: seq<Bytes>, level: seq<Bytes>, index: nat)
    requires index < |level|
    ensures BranchAfter(sha, sofar, level, index) == sofar + BranchOf(sha, level, index)
    decreases |level|
  {
    if |level| > 1 {
      var sib := Padded(level)[Sibling(index)];
      BranchAfterIs(sha, sofar + [sib], NextLevel(sha, level), index / 2);
    }
  }

  method BranchFor(sha: Sha, leaves: seq<Bytes>, index: int) returns (r: Option<seq<Bytes>>)
    ensures r == if 0 <= index < |leaves| then Some(BranchOf(sha, leaves, index)) else None
  {
    if index < 0 || index >= |leaves| {
      return None;
    }
    var branch: seq<Bytes> := [];
    var level, idx := leaves, index;
    BranchAfterIs(sha, [], leaves, index);
    while |level| > 1
      invariant 0 <= idx < |level|
      invariant BranchAfter(sha, branch, level, idx) == BranchOf(sha, leaves, index)
      decreases |level|
    {
      ghost var before := level;
      if |level| % 2 == 1 {
        level := level + [level[|level| - 1]];
      }
      SiblingInside(idx, |level|);
      branch := branch + [level[Sibling(idx)]];
      level := HashLevel(sha, level, before);
      idx := idx / 2;
    }
    return Some(branch);
  }

  method RootFromBranch(sha: Sha, leaf: Bytes, branch: seq<Bytes>, index: int) returns (h: Bytes)
    ensures h == Fold(sha, leaf, branch, index)
  {
    h := leaf;
    var idx := index;
    for i := 0 to |branch|
      invariant Fold(sha, h, branch[i..], idx) == Fold(sha, leaf, branch, index)
    {
      assert branch[i..][0] == branch[i] && branch[i..][1..] == branch[i + 1..];
      if idx % 2 == 0 {
        h := Hash256(sha, h + branch[i]);
      } else {
        h := Hash256(sha, branch[i] + h);
      }
      idx := Half(idx);
    }
  }

  // ---------------------------------------------------------------- completeness

  lemma {:induction false} Completeness(sha: Sha, leaves: seq<Bytes>, index: nat)
    requires index < |leaves|
    ensures Fold(sha, leaves[index], BranchOf(sha, leaves, index), index) == RootOf(sha, leaves)
    decreases |leaves|
  {
    hide Parent;
    if |leaves| > 1 {
      var next := NextLevel(sha, leaves);
      var branch := BranchOf(sha, leaves, index);
      StepUp(sha, leaves, index);
      assert branch[1..] == BranchOf(sha, next, index / 2);
      hide Step, NextLevel, Padded;
      Completeness(sha, next, index / 2);
    }
  }

  lemma StepSize(sha: Sha, h: Bytes, sib: Bytes, index: int)
    requires Sized(sha)
    ensures |Step(sha, h, sib, index)| == 32
  {
  }

  /** A leaf and its sibling hash to the node above. */
  lemma StepUp(sha: Sha, level: seq<Bytes>, index: nat)
    requires index < |level| && |level| > 1
    ensures Step(sha, level[index], Padded(level)[Sibling(index)], index) == NextLevel(sha, level)[index / 2]
  {
    hide Parent;
  }

  function Pow2(k: nat): nat {
    if k == 0 then 1 else 2 * Pow2(k - 1)
  }

  /** The number of levels above n leaves. */
  function Height(n: nat): nat {
    if n <= 1 then 0 else 1 + Height((n + 1) / 2)
  }

  /** Height is the binary logarithm, rounded up. */
  lemma {:induction false} HeightIsCeilLog2(n: nat)
    requires n >= 1
    ensures n <= Pow2(Height(n))
    ensures n >= 2 ==> Pow2(Height(n) - 1) < n
  {
    if n > 2 {
      HeightIsCeilLog2((n + 1) / 2);
    }
  }

  lemma {:induction false} BranchLength(sha: Sha, leaves: seq<Bytes>, index: nat)
    requires index < |leaves|
    ensures |BranchOf(sha, leaves, index)| == Height(|leaves|)
    decreases |leaves|
  {
    if |leaves| > 1 {
      BranchLength(sha, NextLevel(sha, leaves), index / 2);
    }
  }

  // ---------------------------------------------------------------- soundness

  predicate Nodes(level: seq<Bytes>) {
    forall b <- level :: |b| == 32
  }

  /** What the double hash of b hashes. */
  function Inputs(sha: Sha, b: Bytes): set<Bytes> {
    {b, sha(b)}
  }

  /** The octets a step up from h hashes. */
  function Joined(h: Bytes, sib: Bytes, index: int): Bytes {
    if index % 2 == 0 then h + sib else sib + h
  }

  /** Everything that is hashed to fold a branch. */
  function FoldInputs(sha: Sha, h: Bytes, branch: seq<Bytes>, index: int): set<Bytes>
    decreases |branch|
  {
    if branch == [] then {}
    else Inputs(sha, Joined(h, branch[0], index)) + FoldInputs(sha, Step(sha, h, branch[0], index), branch[1..], Half(index))
  }

  function PairAt(p: seq<Bytes>, i: nat): Bytes
    requires 2 * i + 1 < |p|
  {
    p[2 * i] + p[2 * i + 1]
  }

  /** Everything that is hashed to make the next level. */
  function LevelInputs(sha: Sha, level: seq<Bytes>): set<Bytes> {
    var p := Padded(level);
    set i, b | 0 <= i < |p| / 2 && b in Inputs(sha, PairAt(p, i)) :: b
  }

  /** Everything that is hashed to make the root. */
  function TreeInputs(sha: Sha, leaves: seq<Bytes>): set<Bytes>
    decreases |leaves|
  {
    if |leaves| <= 1 then {} else LevelInputs(sha, leaves) + TreeInputs(sha, NextLevel(sha, leaves))
  }

  /** SHA-256 collides on x, which is hashed to fold the branch, and y, which is hashed to make the root. */
  ghost predicate Broken(sha: Sha, leaves: seq<Bytes>, leaf: Bytes, branch: seq<Bytes>, index: int, x: Bytes, y: Bytes) {
    Collision(sha, x, y) && x in FoldInputs(sha, leaf, branch, index) && y in TreeInputs(sha, leaves)
  }

  /** A parent that is also the parent of other nodes gives a collision of SHA-256 itself. */
  lemma SplitParent(sha: Sha, a: Bytes, b: Bytes, c: Bytes, d: Bytes) returns (x: Bytes, y: Bytes)
    requires (|a| == 32 || |b| == 32) && |c| == |d| == 32 && Parent(sha, a, b) == Parent(sha, c, d)
    ensures x in Inputs(sha, a + b) && y in Inputs(sha, c + d)
    ensures (a == c && b == d) || Collision(sha, x, y)
  {
    x, y := a + b, c + d;
    if x != y && sha(x) != sha(y) {
      x, y := sha(x), sha(y);
    } else if x == y {
      assert |x| == 64;
      assert a == x[..32] && c == y[..32] && b == x[32..] && d == y[32..];
    }
  }

  /**
   A branch of the tree's height that folds to the root, at any index whatever, proves that the leaf is
   one of the leaves, and the one at that index when the index is in range; otherwise the lemma finds, among
   what was hashed for the branch and for the tree, two inputs on which SHA-256 collides.
   */
  lemma {:induction false} Soundness(sha: Sha, leaves: seq<Bytes>, leaf: Bytes, branch: seq<Bytes>, index: int)
    returns (x: Bytes, y: Bytes)
    requires Sized(sha) && leaves != [] && Nodes(leaves) && |leaf| == 32
    requires |branch| == Height(|leaves|) && Fold(sha, leaf, branch, index) == RootOf(sha, leaves)
    ensures
      || Broken(sha, leaves, leaf, branch, index, x, y)
      || (leaf in leaves && (0 <= index < |leaves| ==> leaf == leaves[index]))
    decreases |leaves|
  {
    hide Step, NextLevel, Collision, LevelInputs, Inputs, Joined;
    x, y := [], [];
    if |leaves| > 1 {
      var next, sib := NextLevel(sha, leaves), branch[0];
      var h := Step(sha, leaf, sib, index);
      NodesAbove(sha, leaves);
      assert |h| == 32 by {
        StepSize(sha, leaf, sib, index);
      }
      x, y := Soundness(sha, next, h, branch[1..], Half(index));
      if !Broken(sha, next, h, branch[1..], Half(index), x, y) {
        var q: nat :| q < |next| && h == next[q] && (0 <= Half(index) < |next| ==> q == Half(index));
        x, y := StepDown(sha, leaves, leaf, sib, index, q);
      }
    }
  }

  lemma NodesAbove(sha: Sha, level: seq<Bytes>)
    requires Sized(sha)
    ensures Nodes(NextLevel(sha, level))
  {
  }

  /** What a node one level up says about the node it was stepped up from. */
  lemma StepDown(sha: Sha, level: seq<Bytes>, node: Bytes, sib: Bytes, index: int, q: nat)
    returns (x: Bytes, y: Bytes)
    requires Nodes(level) && |node| == 32 && q < |NextLevel(sha, level)|
    requires Step(sha, node, sib, index) == NextLevel(sha, level)[q]
    ensures x in Inputs(sha, Joined(node, sib, index)) && y in LevelInputs(sha, level)
    ensures Collision(sha, x, y) || (node in level && (index / 2 == q && index < |level| ==> node == level[index]))
  {
    hide Inputs, Collision;
    var p := Padded(level);
    assert p[2 * q] in level && p[2 * q + 1] in level;
    if index % 2 == 0 {
      x, y := SplitParent(sha, node, sib, p[2 * q], p[2 * q + 1]);
    } else {
      x, y := SplitParent(sha, sib, node, p[2 * q], p[2 * q + 1]);
    }
    assert y in Inputs(sha, PairAt(p, q));
  }

  /** The level l steps above the leaves. */
  function LevelAt(sha: Sha, leaves: seq<Bytes>, l: nat): seq<Bytes>
    decreases l
  {
    if l == 0 then leaves else LevelAt(sha, NextLevel(sha, leaves), l - 1)
  }

  /** A level above the leaves has the same root, the rest of the height, and hashes nothing else. */
  lemma {:induction false} LevelAbove(sha: Sha, leaves: seq<Bytes>, l: nat)
    requires leaves != [] && l <= Height(|leaves|)
    ensures var level := LevelAt(sha, leaves, l);
      && level != [] && Height(|level|) == Height(|leaves|) - l && RootOf(sha, level) == RootOf(sha, leaves)
      && TreeInputs(sha, level) <= TreeInputs(sha, leaves) && (Sized(sha) && Nodes(leaves) ==> Nodes(level))
    decreases l
  {
    hide NextLevel, LevelInputs;
    if l > 0 {
      if Sized(sha) {
        NodesAbove(sha, leaves);
      }
      LevelAbove(sha, NextLevel(sha, leaves), l - 1);
    }
  }

  /**
   What a branch of any length proves: if it lacks l of the tree's height, that the node is one of the level
   l steps above the leaves, and the one at that index when the index is in range.
   */
  lemma LevelSoundness(sha: Sha, leaves: seq<Bytes>, node: Bytes, branch: seq<Bytes>, index: int, l: nat)
    returns (x: Bytes, y: Bytes)
    requires Sized(sha) && leaves != [] && Nodes(leaves) && |node| == 32
    requires |branch| + l == Height(|leaves|) && Fold(sha, node, branch, index) == RootOf(sha, leaves)
    ensures var level := LevelAt(sha, leaves, l);
      || Broken(sha, leaves, node, branch, index, x, y)
      || (node in level && (0 <= index < |level| ==> node == level[index]))
  {
    hide Fold, RootOf, TreeInputs, FoldInputs, Collision, Nodes;
    LevelAbove(sha, leaves, l);
    x, y := Soundness(sha, LevelAt(sha, leaves, l), node, branch, index);
  }

  /** The index of a leaf's ancestor l steps up. */
  function Ancestor(index: nat, l: nat): (r: nat)
    ensures r <= index
  {
    if l == 0 then index else Ancestor(index / 2, l - 1)
  }

  /**
   The height is needed: at every level, the node above a leaf folds to the root with what is left of the
   leaf's branch, so a shorter branch proves an inner node as if it were a leaf.
   */
  lemma {:induction false} InnerNodeFolds(sha: Sha, leaves: seq<Bytes>, index: nat, l: nat)
    requires index < |leaves| && l <= Height(|leaves|)
    ensures |BranchOf(sha, leaves, index)| == Height(|leaves|) && Ancestor(index, l) < |LevelAt(sha, leaves, l)|
    ensures Fold(sha, LevelAt(sha, leaves, l)[Ancestor(index, l)], BranchOf(sha, leaves, index)[l..], Ancestor(index, l))
         == RootOf(sha, leaves)
    decreases l
  {
    hide Fold, NextLevel, Padded;
    BranchLength(sha, leaves, index);
    var branch := BranchOf(sha, leaves, index);
    if l == 0 {
      Completeness(sha, leaves, index);
      assert branch[0..] == branch;
    } else {
      var next := NextLevel(sha, leaves);
      InnerNodeFolds(sha, next, index / 2, l - 1);
      assert branch[l..] == BranchOf(sha, next, index / 2)[l - 1..];
    }
  }
}
