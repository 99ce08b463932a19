/**
  The Merkle tree over a row of power-of-two length, its paths, and the fold with which a receiver checks a branch.
  The hash of two children is a parameter, `join`.
*/
module Merkle {
  import opened Bits
  import opened Byte32

  type Join = (Hash, Hash) -> Hash

  /** One step up: the sibling, and whether it goes first in the concatenation. */
  datatype PathItem = PathItem(hash: Hash, useFirstInConcatenation: bool)

  type MerklePath = seq<PathItem>

  /** The row above a row of `2 * n` hashes. */
  function Parents(join: Join, row: seq<Hash>, n: nat): (parents: seq<Hash>)
    requires |row| == 2 * n
    ensures |parents| == n
    ensures forall i | 0 <= i < n :: parents[i] == join(row[2 * i], row[2 * i + 1])
  {
    if n == 0 then [] else Parents(join, row[..2 * n - 2], n - 1) + [join(row[2 * n - 2], row[2 * n - 1])]
  }

  function MerkleRoot(join: Join, row: seq<Hash>, k: nat): Hash
    requires |row| == Pow2(k)
    decreases k
  {
    if k == 0 then row[0] else MerkleRoot(join, Parents(join, row, Pow2(k - 1)), k - 1)
  }

  function MerklePathForLeaf(join: Join, row: seq<Hash>, slot: nat, k: nat): (path: MerklePath)
    requires |row| == Pow2(k) && slot < |row|
    ensures |path| == k
    decreases k
  {
    if k == 0 then []
    else
      var sibling := if slot % 2 == 1 then slot - 1 else slot + 1;
      [PathItem(row[sibling], slot % 2 == 1)]
      + MerklePathForLeaf(join, Parents(join, row, Pow2(k - 1)), slot / 2, k - 1)
  }

  // ---- Folding a branch ----

  /** Folds `h` up a branch; a true side puts the sibling first. */
  function FoldSides(join: Join, h: Hash, branchs: seq<Hash>, sides: seq<bool>): Hash
    requires |branchs| == |sides|
    decreases |branchs|
  {
    if branchs == [] then h
    else
      FoldSides(join, if sides[0] then join(branchs[0], h) else join(h, branchs[0]), branchs[1..], sides[1..])
  }

  /** The low `n` bits of a side mask, lowest first. */
  function Sides(mask: nat, n: nat): (sides: seq<bool>)
    ensures |sides| == n
    ensures forall i | 0 <= i < n :: sides[i] == Bit(mask, i)
  {
    if n == 0 then [] else Sides(mask, n - 1) + [Bit(mask, n - 1)]
  }

  /** The receiver's fold: bit `i` of the side mask is the side of item `i`. */
  function Fold(join: Join, h: Hash, branchs: seq<Hash>, sideMask: u32): Hash {
    FoldSides(join, h, branchs, Sides(sideMask, |branchs|))
  }

  function Hashes(path: MerklePath): (hashes: seq<Hash>)
    ensures |hashes| == |path|
    ensures forall i | 0 <= i < |path| :: hashes[i] == path[i].hash
  {
    if path == [] then [] else [path[0].hash] + Hashes(path[1..])
  }

  function PathSides(path: MerklePath): (sides: seq<bool>)
    ensures |sides| == |path|
    ensures forall i | 0 <= i < |path| :: sides[i] == path[i].useFirstInConcatenation
  {
    if path == [] then [] else [path[0].useFirstInConcatenation] + PathSides(path[1..])
  }

  /** Folding a concatenated branch is folding its first part and then its second part. */
  lemma {:induction false} FoldConcat(join: Join, h: Hash, a: seq<Hash>, b: seq<Hash>, s: seq<bool>, t: seq<bool>)
    requires |a| == |s| && |b| == |t|
    ensures FoldSides(join, h, a + b, s + t) == FoldSides(join, FoldSides(join, h, a, s), b, t)
    decreases |a|
  {
    if a == [] {
      assert a + b == b && s + t == t;
    } else {
      assert (a + b)[1..] == a[1..] + b && (s + t)[1..] == s[1..] + t;
      FoldConcat(join, if s[0] then join(a[0], h) else join(h, a[0]), a[1..], b, s[1..], t);
    }
  }

  lemma FoldPathStep(join: Join, h: Hash, path: MerklePath)
    requires path != []
    ensures FoldSides(join, h, Hashes(path), PathSides(path)) ==
            FoldSides(join,
                      if path[0].useFirstInConcatenation then join(path[0].hash, h) else join(h, path[0].hash),
                      Hashes(path[1..]), PathSides(path[1..]))
  {
    assert Hashes(path)[1..] == Hashes(path[1..]);
    assert PathSides(path)[1..] == PathSides(path[1..]);
  }

  /** The first step of a path leads from a leaf to its parent, and the rest of it is the parent's path. */
  lemma PathStep(join: Join, row: seq<Hash>, slot: nat, k: nat)
    requires k > 0 && |row| == Pow2(k) && slot < |row|
    ensures var path, parents := MerklePathForLeaf(join, row, slot, k), Parents(join, row, Pow2(k - 1));
            && parents[slot / 2] ==
               (if path[0].useFirstInConcatenation
                then join(path[0].hash, row[slot]) else join(row[slot], path[0].hash))
            && path[1..] == MerklePathForLeaf(join, parents, slot / 2, k - 1)
  {
    var up, parents := slot / 2, Parents(join, row, Pow2(k - 1));
    hide Parents;
    assert parents[up] == join(row[2 * up], row[2 * up + 1]);
    assert slot == if slot % 2 == 1 then 2 * up + 1 else 2 * up;
  }

  /** A leaf folds along its own path to the root of the tree. */
  lemma {:induction false} PathFoldsToRoot(join: Join, row: seq<Hash>, slot: nat, k: nat)
    requires |row| == Pow2(k) && slot < |row|
    ensures var path := MerklePathForLeaf(join, row, slot, k);
            FoldSides(join, row[slot], Hashes(path), PathSides(path)) == MerkleRoot(join, row, k)
    decreases k
  {
    if k > 0 {
      var path, parents := MerklePathForLeaf(join, row, slot, k), Parents(join, row, Pow2(k - 1));
      PathStep(join, row, slot, k);
      PathFoldsToRoot(join, parents, slot / 2, k - 1);
      hide FoldSides, Hashes, PathSides, Parents, MerklePathForLeaf;
      FoldPathStep(join, row[slot], path);
    }
  }

  /** The sides of a leaf's path are the binary digits of its position. */
  lemma {:induction false} PathSidesAreSlotBits(join: Join, row: seq<Hash>, slot: nat, k: nat)
    requires |row| == Pow2(k) && slot < |row|
    ensures forall i | 0 <= i < k :: MerklePathForLeaf(join, row, slot, k)[i].useFirstInConcatenation == Bit(slot, i)
    decreases k
  {
    if k > 0 {
      var path := MerklePathForLeaf(join, row, slot, k);
      var parents, up := Parents(join, row, Pow2(k - 1)), slot / 2;
      PathSidesAreSlotBits(join, parents, up, k - 1);
      forall i | 0 <= i < k ensures path[i].useFirstInConcatenation == Bit(slot, i) {
        if i > 0 {
          assert path[i] == MerklePathForLeaf(join, parents, up, k - 1)[i - 1];
          assert Bit(slot, i) == Bit(up, i - 1);
        }
      }
    }
  }
}
