/**
  A label volume: a three-dimensional integer array indexed [x, y, z], one
  anatomical label per voxel.
*/
module Volumes {

  predicate InBounds(a: array3<int>, x: int, y: int, z: int) {
    0 <= x < a.Length0 && 0 <= y < a.Length1 && 0 <= z < a.Length2
  }

  /** The labels of the voxels (0, y, z), (1, y, z), ... along the x axis. */
  function Column(a: array3<int>, y: int, z: int): (col: seq<int>)
    requires 0 <= y < a.Length1 && 0 <= z < a.Length2
    reads a
    ensures |col| == a.Length0
    ensures forall x :: 0 <= x < a.Length0 ==> col[x] == a[x, y, z]
  {
    seq(a.Length0, x requires 0 <= x < a.Length0 reads a => a[x, y, z])
  }

  /** The distinct labels present in the volume (numpy's `unique`, as a set). */
  function LabelSet(a: array3<int>): (labels: set<int>)
    reads a
    ensures forall x, y, z :: InBounds(a, x, y, z) ==> a[x, y, z] in labels
  {
    set x, y, z | 0 <= x < a.Length0 && 0 <= y < a.Length1 && 0 <= z < a.Length2 :: a[x, y, z]
  }

  /**
    The members of a set of labels that lie outside a vocabulary: both
    relabeling scripts compute their `invalid_labels` this way, each against
    its own vocabulary.
  */
  function InvalidLabels(labels: set<int>, vocabulary: set<int>): (invalid: set<int>)
    ensures invalid <= labels
    ensures forall l :: l in labels && l !in vocabulary <==> l in invalid
  {
    set l | l in labels && l !in vocabulary
  }

  /**
    Some member of a non-empty set of labels. The loops over label sets pick
    their next label with `:|`; this lemma supplies the witness.
  */
  lemma SomeLabel(labels: set<int>) returns (l: int)
    requires labels != {}
    ensures l in labels
  {
    if forall k :: k !in labels {
      assert false;
    }
    l :| l in labels;
  }
}
