/**
  `relabeling.py`: resolve the corpus callosum, then map every label outside
  the standard vocabulary through a fixed rule, and report how many distinct
  out-of-vocabulary labels were found. Also the default output file name.
*/
module Relabeling {
  import opened Results
  import opened Volumes
  import opened CorpusCallosum
  import opened Paths

  /** The standard label vocabulary of this script. */
  const ValidLabels: set<int> := {
    0, 1, 2, 3, 4, 5, 6, 7, 8, 10, 11, 12, 13, 14, 15, 16, 17, 18, 24, 26, 28, 30, 31,
    40, 41, 42, 43, 44, 46, 47, 49, 50, 51, 52, 53, 54, 58, 60, 62, 63, 77, 80, 85, 172
  }

  const LeftCortex: int := 3
  const RightCortex: int := 42
  const Unused: int := 0

  /** What the script does with one out-of-vocabulary label. */
  datatype Decision =
    | Replace(target: int)   // every voxel carrying the label receives `target`
    | Keep                   // reported and left as it is
    | AssertionFailure       // the script's `assert False`

  /** The rule for an out-of-vocabulary label, its branches taken in the script's order. */
  function Rule(l: int): Decision {
    if 1000 <= l < 2000 then Replace(LeftCortex)
    else if l >= 2000 then Replace(RightCortex)
    else if l in CorpusCallosumLabels then AssertionFailure
    else if l == 72 then Replace(Unused)
    else if l == 29 then Replace(Unused)
    else Keep
  }

  /** The label a voxel ends with, given its label after corpus-callosum resolution. */
  function Remap(l: int): int
    requires l !in CorpusCallosumLabels
  {
    if l in ValidLabels then l
    else match Rule(l)
      case Replace(target) => target
      case _ => l
  }

  /** The label of voxel `x` of a column once both stages have run. */
  function Relabeled(col: seq<int>, x: int, zeroDrawn: bool): int
    requires 0 <= x < |col|
  {
    ResolveClearsCorpusCallosum(col, x, zeroDrawn);
    Remap(Resolve(col, x, zeroDrawn))
  }

  /** The distinct labels of the volume after corpus-callosum resolution. */
  ghost function ResolvedLabelSet(data: array3<int>, coin: (int, int, int) -> bool): set<int>
    reads data
  {
    set x, y, z | 0 <= x < data.Length0 && 0 <= y < data.Length1 && 0 <= z < data.Length2
                  :: Resolve(Column(data, y, z), x, coin(x, y, z))
  }

  // ----- The remapping rule -----

  lemma ValidLabelsBounds()
    ensures forall l | l in ValidLabels :: 0 <= l <= 172 && l !in CorpusCallosumLabels
  {
  }

  /**
    The rule in full: standard labels are untouched; cortical parcellation
    labels collapse to left (1000-1999) or right (2000 and above) cortex; 72
    and 29 become background; any other out-of-vocabulary label is kept.
    The label left afterwards is outside the vocabulary exactly when it was
    one of the kept ones.
  */
  lemma RemapCases(l: int)
    requires l !in CorpusCallosumLabels
    ensures l in ValidLabels ==> Remap(l) == l
    ensures l !in ValidLabels && 1000 <= l < 2000 ==> Remap(l) == LeftCortex
    ensures l !in ValidLabels && l >= 2000 ==> Remap(l) == RightCortex
    ensures l == 72 || l == 29 ==> Remap(l) == Unused
    ensures Remap(l) in ValidLabels || Remap(l) == l
    ensures Remap(l) !in ValidLabels <==>
      l !in ValidLabels && l < 1000 && l != 72 && l != 29
  {
  }

  /** Remapping a second time changes nothing. */
  lemma RemapIdempotent(l: int)
    requires l !in CorpusCallosumLabels
    ensures Remap(l) !in CorpusCallosumLabels
    ensures Remap(Remap(l)) == Remap(l)
  {
  }

  /**
    The final `astype(np.int16)` never meets a large label: whatever is
    non-negative after remapping is below 1000.
  */
  lemma RemapFitsInt16(l: int)
    requires l !in CorpusCallosumLabels
    ensures 0 <= Remap(l) ==> Remap(l) < 1000
  {
    ValidLabelsBounds();
  }

  /**
    Once both stages have run, a voxel holds a standard label, or else it
    still holds its original label, which is one of the kept ones (below
    1000, neither 29 nor 72, nor a corpus-callosum label).
  */
  lemma RelabeledOutcome(col: seq<int>, x: int, zeroDrawn: bool)
    requires 0 <= x < |col|
    ensures Relabeled(col, x, zeroDrawn) in ValidLabels ||
      (Relabeled(col, x, zeroDrawn) == col[x] && col[x] !in ValidLabels && col[x] !in CorpusCallosumLabels &&
       col[x] < 1000 && col[x] != 72 && col[x] != 29)
  {
    ResolveClearsCorpusCallosum(col, x, zeroDrawn);
    RemapCases(Resolve(col, x, zeroDrawn));
  }

  /** What the replacement loop has written at a voxel once the labels in `done` are handled. */
  function Masked(original: int, resolved: int, done: set<int>): int {
    if original in done && Rule(original).Replace? then Rule(original).target else resolved
  }

  /**
    The script masks with the voxel's ORIGINAL label (`data == label`) while
    the labels it handles come from the resolved volume. Both agree: the
    labels handled are never corpus-callosum labels, and a voxel whose label
    the resolver did not touch has the same label in both volumes.
  */
  lemma MaskOnOriginalAgrees(original: int, resolved: int, invalid: set<int>)
    requires original in CorpusCallosumLabels ==> resolved == LeftWhiteMatter || resolved == RightWhiteMatter
    requires original !in CorpusCallosumLabels ==> resolved == original
    requires resolved !in ValidLabels ==> resolved in invalid
    requires forall l | l in invalid :: l !in ValidLabels && l !in CorpusCallosumLabels
    ensures resolved !in CorpusCallosumLabels
    ensures Masked(original, resolved, invalid) == Remap(resolved)
  {
  }

  /**
    A volume that holds standard labels only is left exactly as it was, and
    no out-of-vocabulary label is reported.
  */
  lemma AllValidVolumeUnchanged(data: array3<int>, coin: (int, int, int) -> bool)
    requires forall x, y, z | InBounds(data, x, y, z) :: data[x, y, z] in ValidLabels
    ensures forall x, y, z | InBounds(data, x, y, z) ::
      Relabeled(Column(data, y, z), x, coin(x, y, z)) == data[x, y, z]
    ensures InvalidLabels(ResolvedLabelSet(data, coin), ValidLabels) == {}
  {
    ValidLabelsBounds();
    forall x, y, z | InBounds(data, x, y, z)
      ensures Relabeled(Column(data, y, z), x, coin(x, y, z)) == data[x, y, z]
    {
      assert Column(data, y, z)[x] == data[x, y, z];
    }
    forall l | l in ResolvedLabelSet(data, coin) ensures l in ValidLabels {
      var x, y, z :| InBounds(data, x, y, z) && l == Resolve(Column(data, y, z), x, coin(x, y, z));
      assert Column(data, y, z)[x] == data[x, y, z];
    }
  }

  // ----- The relabeling pass -----

  /** `data.copy()`: a fresh volume of the same shape holding the same labels. */
  method CopyVolume(data: array3<int>) returns (copy: array3<int>)
    ensures fresh(copy)
    ensures copy.Length0 == data.Length0 && copy.Length1 == data.Length1 && copy.Length2 == data.Length2
    ensures forall y, z | 0 <= y < data.Length1 && 0 <= z < data.Length2 :: Column(copy, y, z) == Column(data, y, z)
  {
    copy := new int[data.Length0, data.Length1, data.Length2];
    forall x, y, z | 0 <= x < data.Length0 && 0 <= y < data.Length1 && 0 <= z < data.Length2 {
      copy[x, y, z] := data[x, y, z];
    }
    assert forall y, z | 0 <= y < data.Length1 && 0 <= z < data.Length2 :: Column(copy, y, z) == Column(data, y, z);
  }

  /** `new_data[data == label] = new_label`: the mask is taken over the original volume. */
  method ReplaceLabel(data: array3<int>, newData: array3<int>, l: int, newLabel: int)
    requires newData != data
    requires newData.Length0 == data.Length0 && newData.Length1 == data.Length1 && newData.Length2 == data.Length2
    modifies newData
    ensures forall x, y, z | InBounds(data, x, y, z) ::
      newData[x, y, z] == if data[x, y, z] == l then newLabel else old(newData[x, y, z])
  {
    forall x, y, z | 0 <= x < data.Length0 && 0 <= y < data.Length1 && 0 <= z < data.Length2 && data[x, y, z] == l {
      newData[x, y, z] := newLabel;
    }
  }

  /**
    The loop of `relabel_segmentation` over the out-of-vocabulary labels:
    for each label that has a replacement, every voxel of `newData` whose
    label in `data` is that one receives the replacement. The script asserts
    that no corpus-callosum label reaches this loop.
  */
  method ReplaceInvalidLabels(data: array3<int>, newData: array3<int>, invalidLabels: set<int>)
    requires newData != data
    requires newData.Length0 == data.Length0 && newData.Length1 == data.Length1 && newData.Length2 == data.Length2
    requires forall l | l in invalidLabels :: l !in CorpusCallosumLabels
    modifies newData
    ensures forall x, y, z | InBounds(data, x, y, z) ::
      newData[x, y, z] == Masked(data[x, y, z], old(newData[x, y, z]), invalidLabels)
  {
    var pending := invalidLabels;
    while pending != {}
      invariant pending <= invalidLabels
      invariant forall x, y, z | InBounds(data, x, y, z) ::
        newData[x, y, z] == Masked(data[x, y, z], old(newData[x, y, z]), invalidLabels - pending)
      decreases pending
    {
      ghost var next := SomeLabel(pending);  // a witness, so that `:|` below can pick a label
      var l :| l in pending;
      var decision := Rule(l);
      assert !decision.AssertionFailure?;
      if decision.Replace? {
        ReplaceLabel(data, newData, l, decision.target);
      }
      pending := pending - {l};
    }
  }

  /**
    `relabel_segmentation`, without the file I/O: copy the volume, resolve
    the corpus callosum on the copy, collect the distinct out-of-vocabulary
    labels of the copy, and for each one with a replacement overwrite, in the
    copy, every voxel whose ORIGINAL label is that one. Returns the copy and
    the number of out-of-vocabulary labels found, kept ones included.
  */
  method RelabelSegmentation(data: array3<int>, coin: (int, int, int) -> bool)
    returns (newData: array3<int>, count: nat)
    ensures fresh(newData)
    ensures newData.Length0 == data.Length0 && newData.Length1 == data.Length1 && newData.Length2 == data.Length2
    ensures forall x, y, z | InBounds(data, x, y, z) ::
      newData[x, y, z] == Relabeled(Column(data, y, z), x, coin(x, y, z))
    ensures count == |InvalidLabels(ResolvedLabelSet(data, coin), ValidLabels)|
  {
    newData := CopyVolume(data);
    CorrectCorpusCallosum(newData, coin);

    var uniqueLabels := set x, y, z | 0 <= x < newData.Length0 && 0 <= y < newData.Length1 && 0 <= z < newData.Length2
                                      :: newData[x, y, z];
    var invalidLabels := InvalidLabels(uniqueLabels, ValidLabels);

    forall x, y, z | InBounds(data, x, y, z)
      ensures newData[x, y, z] == Resolve(Column(data, y, z), x, coin(x, y, z))
      ensures newData[x, y, z] !in CorpusCallosumLabels
    {
      ResolveClearsCorpusCallosum(Column(data, y, z), x, coin(x, y, z));
    }
    assert uniqueLabels == ResolvedLabelSet(data, coin);

    ReplaceInvalidLabels(data, newData, invalidLabels);

    forall x, y, z | InBounds(data, x, y, z)
      ensures newData[x, y, z] == Relabeled(Column(data, y, z), x, coin(x, y, z))
    {
      var col := Column(data, y, z);
      var resolved := Resolve(col, x, coin(x, y, z));
      ResolveClearsCorpusCallosum(col, x, coin(x, y, z));
      assert resolved in uniqueLabels;
      MaskOnOriginalAgrees(data[x, y, z], resolved, invalidLabels);
    }
    count := |invalidLabels|;
  }

  // ----- The default output name -----

  /**
    The output name used when none is given: `_relabeled` inserted between
    the stem and the suffix of the input's last component, so that only the
    last suffix moves (`a.nii.gz` becomes `a.nii_relabeled.gz`).
  */
  function DefaultOutputName(inputPath: string): Option<string> {
    var name := Name(inputPath);
    WithName(inputPath, Stem(name) + "_relabeled" + Suffix(name))
  }

  /** `args.output` when it is given and non-empty, the default name otherwise. */
  function OutputFile(inputPath: string, output: Option<string>): (r: Option<string>)
    ensures output.Some? && output.value != "" ==> r == output
    ensures (output.None? || output.value == "") ==> r == DefaultOutputName(inputPath)
  {
    if output.Some? && output.value != "" then output else DefaultOutputName(inputPath)
  }

  /**
    Only the last suffix moves: `<stem>.<inner>.<outer>` becomes
    `<stem>.<inner>_relabeled.<outer>` (`a.nii.gz` becomes
    `a.nii_relabeled.gz`).
  */
  lemma DefaultOutputNameDoubleSuffix(stem: string, inner: string, outer: string)
    requires '/' !in stem && '/' !in inner && '/' !in outer
    requires outer != "" && '.' !in outer
    ensures DefaultOutputName(stem + "." + inner + "." + outer) == Some(stem + "." + inner + "_relabeled." + outer)
  {
    var front := stem + "." + inner;
    NoSeparatorInDottedName(stem, inner);
    NoSeparatorInDottedName(front, outer);
    var p := front + "." + outer;
    assert RFind(p, '/') == -1;
    SuffixAfterLastDot(front, outer);
    DefaultOutputNameOfBareName(p);
    assert front + "_relabeled" + ("." + outer) == stem + "." + inner + "_relabeled." + outer;
  }

  lemma NoSeparatorInDottedName(front: string, back: string)
    requires '/' !in front && '/' !in back
    ensures '/' !in front + "." + back
  {
    var p := front + "." + back;
    forall k | 0 <= k < |p| ensures p[k] != '/' {
      if k < |front| {
        assert p[k] == front[k];
      } else if |front| < k {
        assert p[k] == back[k - |front| - 1];
      }
    }
  }

  /** The suffix of a name starts at its last dot when a character precedes it and one follows. */
  lemma SuffixAfterLastDot(front: string, outer: string)
    requires front != "" && outer != "" && '.' !in outer
    ensures Stem(front + "." + outer) == front && Suffix(front + "." + outer) == "." + outer
  {
    var dotOuter := "." + outer;
    var p := front + dotOuter;
    assert p == front + "." + outer;
    assert RFind(outer, '.') == -1;
    RFindAppend(".", outer, '.');
    RFindAppend(front, dotOuter, '.');
    assert SuffixDot(p) == |front|;
    assert p[..|front|] == front && p[|front|..] == dotOuter;
  }

  /** A path with no directory part is renamed as a whole. */
  lemma DefaultOutputNameOfBareName(p: string)
    requires p != "" && Name(p) == p
    ensures DefaultOutputName(p) == Some(Stem(p) + "_relabeled" + Suffix(p))
  {
    var n := Stem(p) + "_relabeled" + Suffix(p);
    var q := RStripSlashes(p);
    assert |q| == |p| && q == p;
    assert q[..|q| - |Name(p)|] == [];
    assert [] + n == n;
  }

  /**
    The directory part is kept: `<dir>/<front>.<outer>` becomes
    `<dir>/<front>_relabeled.<outer>` (`sub-01/aseg.mgz` becomes
    `sub-01/aseg_relabeled.mgz`).
  */
  lemma DefaultOutputNameInDirectory(dir: string, front: string, outer: string)
    requires front != "" && '/' !in front
    requires outer != "" && '/' !in outer && '.' !in outer
    ensures DefaultOutputName(dir + "/" + front + "." + outer) == Some(dir + "/" + front + "_relabeled." + outer)
  {
    var name := front + "." + outer;
    NoSeparatorInDottedName(front, outer);
    var head := dir + "/";
    var n := front + "_relabeled" + ("." + outer);
    RenameInDirectory(head, name, n);
    SuffixAfterLastDot(front, outer);
    assert DefaultOutputName(head + name) == Some(head + n);
    RegroupDirectoryPath(dir, front, outer);
  }

  lemma RegroupDirectoryPath(dir: string, front: string, outer: string)
    ensures (dir + "/") + (front + "." + outer) == dir + "/" + front + "." + outer
    ensures (dir + "/") + (front + "_relabeled" + ("." + outer)) == dir + "/" + front + "_relabeled." + outer
  {
    assert "_relabeled" + "." == "_relabeled.";
  }

  /**
    A trailing separator is dropped before renaming: `sub-01/` becomes
    `sub-01_relabeled`.
  */
  lemma DefaultOutputNameOfDirectory(dir: string)
    requires dir != "" && '/' !in dir && '.' !in dir
    ensures DefaultOutputName(dir + "/") == Some(dir + "_relabeled")
  {
    RStripOneSlash(dir);
    assert RFind(dir, '/') == -1;
    assert RFind(dir, '.') == -1;
    assert dir[..0] + (dir + "_relabeled" + "") == dir + "_relabeled";
  }

  /**
    Only a path made of separators alone, or the empty path, has an empty
    name, and then `with_name` raises.
  */
  lemma DefaultOutputNameOfRoot()
    ensures DefaultOutputName("/") == None
  {
    assert RStripSlashes("/") == RStripSlashes("") == "";
  }

  /**
    For an input whose last component has a suffix, the output keeps the
    directory and the suffix, and its stem is the input's stem followed by
    `_relabeled`.
  */
  lemma DefaultOutputNameKeepsSuffix(inputPath: string)
    requires Suffix(Name(inputPath)) != ""
    ensures DefaultOutputName(inputPath).Some?
    ensures var out := DefaultOutputName(inputPath).value;
      Dirname(out) == Dirname(RStripSlashes(inputPath)) &&
      Suffix(Name(out)) == Suffix(Name(inputPath)) &&
      Stem(Name(out)) == Stem(Name(inputPath)) + "_relabeled"
  {
    var name := Name(inputPath);
    var n := Stem(name) + "_relabeled" + Suffix(name);
    RelabeledName(name);
    WithNameReplacesName(inputPath, n);
    var out := WithName(inputPath, n).value;
    assert DefaultOutputName(inputPath) == Some(out);
    assert Name(out) == n;
  }

  /** Inserting `_relabeled` before a suffix extends the stem and keeps the suffix. */
  lemma RelabeledName(name: string)
    requires '/' !in name && Suffix(name) != ""
    ensures var n := Stem(name) + "_relabeled" + Suffix(name);
      n != "" && '/' !in n && Stem(n) == Stem(name) + "_relabeled" && Suffix(n) == Suffix(name)
  {
    var i := SuffixDot(name);
    var stem, outer := name[..i], name[i + 1..];
    SplitAtSuffixDot(name);
    var front := stem + "_relabeled";
    NoSeparatorInConcat(stem, "_relabeled");
    NoSeparatorInDottedName(front, outer);
    SuffixAfterLastDot(front, outer);
    RegroupRelabeled(stem, outer);
  }

  /** The parts before and after the suffix dot: no separator in either, no dot after it. */
  lemma SplitAtSuffixDot(name: string)
    requires '/' !in name && SuffixDot(name) != -1
    ensures var i := SuffixDot(name);
      Stem(name) == name[..i] && Suffix(name) == "." + name[i + 1..] &&
      '/' !in name[..i] && '/' !in name[i + 1..] && '.' !in name[i + 1..]
  {
    var i := SuffixDot(name);
    var stem, outer := name[..i], name[i + 1..];
    assert name[i..] == "." + outer;
    assert forall k | 0 <= k < |stem| :: stem[k] == name[k];
    assert forall k | 0 <= k < |outer| :: outer[k] == name[i + 1 + k];
  }

  lemma NoSeparatorInConcat(a: string, b: string)
    requires '/' !in a && '/' !in b
    ensures '/' !in a + b
  {
    forall k | 0 <= k < |a + b| ensures (a + b)[k] != '/' {
      if k >= |a| {
        assert (a + b)[k] == b[k - |a|];
      }
    }
  }

  lemma RegroupRelabeled(stem: string, outer: string)
    ensures stem + "_relabeled" + "." + outer == stem + "_relabeled" + ("." + outer)
  {
  }


}
