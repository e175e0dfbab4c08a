/**
  `relabeling_with_lut2.py`: the same label clean-up as `relabeling.py`
  without the corpus-callosum stage, against a vocabulary that carries a
  colour per label, plus the FreeSurfer colour lookup table (LUT) written
  from that vocabulary.
*/
module RelabelingLut {
  import opened Results
  import opened Volumes
  import opened Decimal
  import opened Paths
  import CorpusCallosum
  import Relabeling

  /** A display colour: red, green and blue components. */
  datatype Rgb = Rgb(r: int, g: int, b: int)

  /** `valid_labels_with_rgb`: the standard vocabulary with a display colour per label. */
  const LabelColors: map<int, Rgb> := map[
    0 := Rgb(0, 0, 0), 1 := Rgb(70, 130, 180), 2 := Rgb(245, 245, 245), 3 := Rgb(205, 62, 78),
    4 := Rgb(120, 18, 134), 5 := Rgb(196, 58, 250), 6 := Rgb(0, 148, 0), 7 := Rgb(220, 248, 164),
    8 := Rgb(230, 148, 34), 10 := Rgb(0, 118, 14), 11 := Rgb(122, 186, 220), 12 := Rgb(236, 13, 176),
    13 := Rgb(12, 48, 255), 14 := Rgb(204, 182, 142), 15 := Rgb(42, 204, 164), 16 := Rgb(119, 159, 176),
    17 := Rgb(220, 216, 20), 18 := Rgb(103, 255, 255), 24 := Rgb(60, 60, 60), 26 := Rgb(255, 165, 0),
    28 := Rgb(165, 42, 42), 30 := Rgb(160, 32, 240), 31 := Rgb(0, 200, 200), 41 := Rgb(0, 225, 0),
    42 := Rgb(205, 62, 78), 43 := Rgb(120, 18, 134), 44 := Rgb(196, 58, 250), 46 := Rgb(220, 248, 164),
    47 := Rgb(230, 148, 34), 49 := Rgb(0, 118, 14), 50 := Rgb(122, 186, 220), 51 := Rgb(236, 13, 176),
    52 := Rgb(13, 48, 255), 53 := Rgb(220, 216, 20), 54 := Rgb(103, 255, 255), 58 := Rgb(255, 165, 0),
    60 := Rgb(165, 42, 42), 62 := Rgb(160, 32, 240), 63 := Rgb(0, 200, 221), 77 := Rgb(200, 70, 255),
    85 := Rgb(234, 169, 30), 172 := Rgb(119, 100, 176)
  ]

  /** The order in which the dictionary lists its labels, which is the order of the LUT's lines. */
  const LabelOrder: seq<int> := [
    0, 1, 2, 3, 4, 5, 6, 7, 8, 10, 11, 12, 13, 14, 15, 16,
    17, 18, 24, 26, 28, 30, 31, 41, 42, 43, 44, 46, 47, 49, 50, 51,
    52, 53, 54, 58, 60, 62, 63, 77, 85, 172
  ]

  /** `valid_labels`: the keys of the colour table. */
  const ValidLabels: set<int> := LabelColors.Keys

  /** The anatomical names of `get_label_name`. */
  const LabelNames: map<int, string> := map[
    0 := "Unknown", 1 := "Left-Cerebral-Exterior", 2 := "Left-Cerebral-White-Matter",
    3 := "Left-Cerebral-Cortex", 4 := "Left-Lateral-Ventricle", 5 := "Left-Inf-Lat-Vent",
    6 := "Left-Cerebellum-Exterior", 7 := "Left-Cerebellum-White-Matter", 8 := "Left-Cerebellum-Cortex",
    10 := "Left-Thalamus-Proper", 11 := "Left-Caudate", 12 := "Left-Putamen", 13 := "Left-Pallidum",
    14 := "3rd-Ventricle", 15 := "4th-Ventricle", 16 := "Brain-Stem", 17 := "Left-Hippocampus",
    18 := "Left-Amygdala", 24 := "CSF", 26 := "Left-Accumbens-area", 28 := "Left-VentralDC",
    30 := "Left-vessel", 31 := "Left-choroid-plexus", 41 := "Right-Cerebral-White-Matter",
    42 := "Right-Cerebral-Cortex", 43 := "Right-Lateral-Ventricle", 44 := "Right-Inf-Lat-Vent",
    46 := "Right-Cerebellum-White-Matter", 47 := "Right-Cerebellum-Cortex", 49 := "Right-Thalamus-Proper",
    50 := "Right-Caudate", 51 := "Right-Putamen", 52 := "Right-Pallidum", 53 := "Right-Hippocampus",
    54 := "Right-Amygdala", 58 := "Right-Accumbens-area", 60 := "Right-VentralDC", 62 := "Right-vessel",
    63 := "Right-choroid-plexus", 77 := "WM-hypointensities", 85 := "Optic-Chiasm", 172 := "Vermis"
  ]

  const LeftCortex: int := 3
  const RightCortex: int := 42
  const LutFileName: string := "custom_segmentation_lut.txt"
  const LutHeader: seq<string> := [
    "# FreeSurfer color lookup table for segmentation",
    "# Label Name R G B A"
  ]

  // ----- The vocabulary -----

  /** Every label the dictionary lists is in the vocabulary, and each has a name. */
  lemma LabelOrderWithinVocabulary()
    ensures forall i | 0 <= i < |LabelOrder| :: LabelOrder[i] in ValidLabels && LabelOrder[i] in LabelNames
  {
  }

  /** The vocabulary lies within 0..172 and omits 29, 40, 72 and 80. */
  lemma ValidLabelsBounds()
    ensures forall l | l in ValidLabels :: 0 <= l <= 172 && l != 29 && l != 40 && l != 72 && l != 80
  {
    LabelOrderCoversVocabulary();
    assert forall i | 0 <= i < |LabelOrder| ::
      0 <= LabelOrder[i] <= 172 && LabelOrder[i] != 29 && LabelOrder[i] != 40 && LabelOrder[i] != 72 && LabelOrder[i] != 80;
  }

  /** Every label of the vocabulary is listed. */
  lemma LabelOrderCoversVocabulary()
    ensures forall l | l in ValidLabels :: l in LabelOrder
  {
  }

  /** The dictionary lists its labels in increasing order, so none twice. */
  lemma LabelOrderIncreasing()
    ensures forall i | 0 < i < |LabelOrder| :: LabelOrder[i - 1] < LabelOrder[i]
  {
  }

  /** The name table names exactly the vocabulary. */
  lemma NamesCoverVocabulary()
    ensures ValidLabels == LabelNames.Keys
  {
    LabelOrderCoversVocabulary();
    NamedLabelsListed();
    LabelOrderWithinVocabulary();
  }

  /** Every label with a name is listed. */
  lemma NamedLabelsListed()
    ensures forall l | l in LabelNames :: l in LabelOrder
  {
  }

  /**
    This vocabulary is the one of `relabeling.py` without 40 and 80, so
    those two labels, standard there, count as out-of-vocabulary here.
  */
  lemma VocabularyAgainstRelabeling()
    ensures ValidLabels == Relabeling.ValidLabels - {40, 80}
  {
    forall l | l in Relabeling.ValidLabels - {40, 80} ensures l in ValidLabels { }
    forall l | l in ValidLabels ensures l in Relabeling.ValidLabels - {40, 80} { }
  }

  // ----- Label names and LUT lines -----

  /** `get_label_name`: the anatomical name, or `Unknown-<label>` for a label without one. */
  function GetLabelName(l: int): (name: string)
    ensures l in LabelNames ==> name == LabelNames[l]
    ensures l !in LabelNames ==> |name| > 8 && name[..8] == "Unknown-" && ParseInt(name[8..]) == Some(l)
  {
    if l in LabelNames then LabelNames[l]
    else
      ParseIntRoundTrip(l);
      assert ("Unknown-" + IntToString(l))[8..] == IntToString(l);
      "Unknown-" + IntToString(l)
  }

  /** A number's decimal text holds no space. */
  lemma IntToStringHasNoSpace(i: int)
    ensures ' ' !in IntToString(i)
  {
    forall k | 0 <= k < |IntToString(i)| ensures IntToString(i)[k] != ' ' {
      IntToStringAlphabet(i, k);
    }
  }

  /** The line of the LUT for one label: `<label> <name> <r> <g> <b> 0`. */
  function LutLine(l: int, name: string, color: Rgb): string {
    IntToString(l) + " " + name + " " + IntToString(color.r) + " " +
      IntToString(color.g) + " " + IntToString(color.b) + " " + "0"
  }

  /** The text after the last space of `s`, all of `s` when it has none. */
  function LastField(s: string): string {
    s[RFind(s, ' ') + 1..]
  }

  /** The text before the last space of `s`, empty when it has none. */
  function DropLastField(s: string): string {
    var i := RFind(s, ' ');
    if i < 0 then "" else s[..i]
  }

  /** A field without spaces appended after a space is peeled off again. */
  lemma PeelField(front: string, field: string)
    requires ' ' !in field
    ensures RFind(front + " " + field, ' ') == |front|
    ensures LastField(front + " " + field) == field
    ensures DropLastField(front + " " + field) == front
  {
    var line := front + " " + field;
    assert RFind(field, ' ') == -1;
    assert RFind(" ", ' ') == 0;
    RFindAppend(front, " ", ' ');
    RFindAppend(front + " ", field, ' ');
    assert line[..|front|] == front;
    assert line[|front| + 1..] == field;
  }

  /**
    How a LUT reader takes a line apart: the label up to the first space,
    then, from the end, an alpha of 0 and the blue, green and red
    components; what lies between the label and the colour is the name.
  */
  function ParseLutLine(line: string): (r: Option<(int, string, Rgb)>)
    ensures r.Some? ==> var i := Find(line, ' '); i >= 0 && ParseInt(line[..i]) == Some(r.value.0)
  {
    var i := Find(line, ' ');
    if i < 0 then None
    else
      var rest := line[i + 1..];
      var upToBlue := DropLastField(rest);
      var upToGreen := DropLastField(upToBlue);
      var upToRed := DropLastField(upToGreen);
      if LastField(rest) != "0" || RFind(upToRed, ' ') < 0 then None
      else
        match (ParseInt(line[..i]), ParseInt(LastField(upToRed)), ParseInt(LastField(upToGreen)),
               ParseInt(LastField(upToBlue)))
        case (Some(l), Some(r), Some(g), Some(b)) => Some((l, DropLastField(upToRed), Rgb(r, g, b)))
        case _ => None
  }

  /** The first space of a line follows its label. */
  lemma LabelField(text: string, rest: string)
    requires ' ' !in text
    ensures Find(text + " " + rest, ' ') == |text|
    ensures (text + " " + rest)[..|text|] == text && (text + " " + rest)[|text| + 1..] == rest
  {
    var line := text + " " + rest;
    assert line[|text|] == ' ';
    forall k | 0 <= k < |text| ensures line[k] != ' ' {
      assert line[k] == text[k];
    }
  }

  /** The colour and alpha fields peel off the end of a line, leaving the name. */
  lemma ColourFields(name: string, r: string, g: string, b: string)
    requires ' ' !in r && ' ' !in g && ' ' !in b
    ensures var rest := name + " " + r + " " + g + " " + b + " " + "0";
      LastField(rest) == "0" && DropLastField(rest) == name + " " + r + " " + g + " " + b &&
      LastField(DropLastField(rest)) == b && LastField(DropLastField(DropLastField(rest))) == g &&
      RFind(DropLastField(DropLastField(DropLastField(rest))), ' ') >= 0 &&
      LastField(DropLastField(DropLastField(DropLastField(rest)))) == r &&
      DropLastField(DropLastField(DropLastField(DropLastField(rest)))) == name
  {
    PeelField(name + " " + r + " " + g + " " + b, "0");
    PeelField(name + " " + r + " " + g, b);
    PeelField(name + " " + r, g);
    PeelField(name, r);
  }

  /** A LUT line reads back as its label, its name and its colour, whatever the name. */
  lemma LutLineRoundTrip(l: int, name: string, color: Rgb)
    ensures ParseLutLine(LutLine(l, name, color)) == Some((l, name, color))
  {
    var sl := IntToString(l);
    var sr, sg, sb := IntToString(color.r), IntToString(color.g), IntToString(color.b);
    IntToStringHasNoSpace(l);
    IntToStringHasNoSpace(color.r);
    IntToStringHasNoSpace(color.g);
    IntToStringHasNoSpace(color.b);
    var rest := name + " " + sr + " " + sg + " " + sb + " " + "0";
    var line := LutLine(l, name, color);
    assert line == sl + " " + rest;
    LabelField(sl, rest);
    ColourFields(name, sr, sg, sb);
    ParseIntRoundTrip(l);
    ParseIntRoundTrip(color.r);
    ParseIntRoundTrip(color.g);
    ParseIntRoundTrip(color.b);
  }

  /** The LUT line of label `l`, named by `get_label_name`, in the colour `colors` gives it. */
  function EntryLine(colors: map<int, Rgb>, l: int): string
    requires l in colors
  {
    LutLine(l, GetLabelName(l), colors[l])
  }

  /** The entry lines of the LUT for the labels of `order`, in that order. */
  function LutEntries(colors: map<int, Rgb>, order: seq<int>): (lines: seq<string>)
    requires forall i | 0 <= i < |order| :: order[i] in colors
    ensures |lines| == |order|
  {
    if order == [] then []
    else LutEntries(colors, order[..|order| - 1]) + [EntryLine(colors, order[|order| - 1])]
  }

  /** Line `i` of the entries is the line of the `i`-th label. */
  lemma {:induction false} LutEntryAt(colors: map<int, Rgb>, order: seq<int>, i: int)
    requires forall j | 0 <= j < |order| :: order[j] in colors
    requires 0 <= i < |order|
    ensures LutEntries(colors, order)[i] == EntryLine(colors, order[i])
  {
    if i < |order| - 1 {
      var front := order[..|order| - 1];
      LutEntryAt(colors, front, i);
      assert front[i] == order[i];
    }
  }

  /** Taking one more label of `order` adds that label's line at the end. */
  lemma LutEntriesExtend(colors: map<int, Rgb>, order: seq<int>, i: int)
    requires forall j | 0 <= j < |order| :: order[j] in colors
    requires 0 <= i < |order|
    ensures LutEntries(colors, order[..i + 1]) == LutEntries(colors, order[..i]) + [EntryLine(colors, order[i])]
  {
    assert order[..i + 1][..i] == order[..i];
  }

  /**
    `create_color_lut`, without the file: the two header lines, then one
    line per label in the dictionary's order. Returns the file name it was
    given.
  */
  method CreateColorLut(colors: map<int, Rgb>, order: seq<int>, outputFile: string)
    returns (path: string, lines: seq<string>)
    requires forall i | 0 <= i < |order| :: order[i] in colors
    ensures path == outputFile
    ensures lines == LutHeader + LutEntries(colors, order)
  {
    var entries: seq<string> := [];
    for i := 0 to |order|
      invariant entries == LutEntries(colors, order[..i])
    {
      LutEntriesExtend(colors, order, i);
      entries := entries + [EntryLine(colors, order[i])];
    }
    assert order[..|order|] == order;
    lines := LutHeader + entries;
    path := outputFile;
  }

  /**
    Every entry line of the LUT built from the colour table reads back as
    its label, that label's anatomical name and its colour: no `Unknown-`
    name reaches the file, since the name table covers the colour table.
  */
  lemma ColorLutReadsBack(i: int)
    requires 0 <= i < |LabelOrder|
    ensures forall j | 0 <= j < |LabelOrder| :: LabelOrder[j] in LabelColors
    ensures var l := LabelOrder[i];
      ParseLutLine(LutEntries(LabelColors, LabelOrder)[i]) == Some((l, LabelNames[l], LabelColors[l]))
  {
    LabelOrderWithinVocabulary();
    NamesCoverVocabulary();
    LutEntryAt(LabelColors, LabelOrder, i);
    LutLineRoundTrip(LabelOrder[i], GetLabelName(LabelOrder[i]), LabelColors[LabelOrder[i]]);
  }

  // ----- The remapping rule -----

  /**
    The replacement for an out-of-vocabulary label: none for the background
    (skipped), left cortex for 1000-1999, right cortex from 2000 on, and
    none for any other label (reported and kept).
  */
  function Replacement(l: int): Option<int> {
    if l == 0 then None
    else if 1000 <= l < 2000 then Some(LeftCortex)
    else if l >= 2000 then Some(RightCortex)
    else None
  }

  /** The label a voxel ends with. */
  function Remap(l: int): int {
    if l in ValidLabels then l
    else match Replacement(l)
      case Some(target) => target
      case None => l
  }

  /**
    The rule in full: standard labels are untouched, cortical parcellation
    labels collapse to left or right cortex, every other label is kept; the
    result is out of vocabulary exactly when the label was and is below 1000.
  */
  lemma RemapCases(l: int)
    ensures l in ValidLabels ==> Remap(l) == l
    ensures l !in ValidLabels && 1000 <= l < 2000 ==> Remap(l) == LeftCortex
    ensures l !in ValidLabels && l >= 2000 ==> Remap(l) == RightCortex
    ensures Remap(l) in ValidLabels || Remap(l) == l
    ensures Remap(l) !in ValidLabels <==> l !in ValidLabels && l < 1000
  {
  }

  /** The background is in the vocabulary, so the script's skip of label 0 never fires. */
  lemma BackgroundNeverInvalid(labels: set<int>)
    ensures 0 !in InvalidLabels(labels, ValidLabels)
  {
  }

  /**
    Labels this script keeps though `relabeling.py` resolves or replaces
    them: the corpus callosum, 29 and 72 pass through, and so do 40 and 80,
    which are out of vocabulary here.
  */
  lemma KeptLabels(l: int)
    requires l in CorpusCallosum.CorpusCallosumLabels || l == 29 || l == 72 || l == 40 || l == 80
    ensures l !in ValidLabels && Remap(l) == l
  {
    ValidLabelsBounds();
  }

  /** Remapping a second time changes nothing. */
  lemma RemapIdempotent(l: int)
    ensures Remap(Remap(l)) == Remap(l)
  {
  }

  /** Whatever is non-negative after remapping is below 1000, so `astype(np.int16)` keeps it. */
  lemma RemapFitsInt16(l: int)
    ensures 0 <= Remap(l) ==> Remap(l) < 1000
  {
  }

  /**
    Outside the corpus callosum and labels 29 and 72, both scripts give a
    label the same final value; 40 and 80 are reported here but kept by both.
  */
  lemma AgreesWithRelabeling(l: int)
    requires l !in CorpusCallosum.CorpusCallosumLabels && l != 29 && l != 72
    ensures Remap(l) == Relabeling.Remap(l)
  {
  }

  // ----- The relabeling pass -----

  /** What the replacement loop has written at a voxel once the labels in `done` are handled. */
  function Masked(original: int, done: set<int>): int {
    if original in done && Replacement(original).Some? then Replacement(original).value else original
  }

  /** Once every out-of-vocabulary label of the volume is handled, each voxel holds its remapped label. */
  lemma MaskedIsRemap(original: int, invalid: set<int>)
    requires original !in ValidLabels ==> original in invalid
    requires invalid !! ValidLabels
    ensures Masked(original, invalid) == Remap(original)
  {
  }

  /**
    The loop of `relabel_segmentation`: for each out-of-vocabulary label
    with a replacement, every voxel of `newData` whose label in `data` is
    that one receives the replacement; the others are skipped.
  */
  method ReplaceInvalidLabels(data: array3<int>, newData: array3<int>, invalidLabels: set<int>)
    requires newData != data
    requires newData.Length0 == data.Length0 && newData.Length1 == data.Length1 && newData.Length2 == data.Length2
    requires forall x, y, z | InBounds(data, x, y, z) :: newData[x, y, z] == data[x, y, z]
    modifies newData
    ensures forall x, y, z | InBounds(data, x, y, z) :: newData[x, y, z] == Masked(data[x, y, z], invalidLabels)
  {
    var pending := invalidLabels;
    while pending != {}
      invariant pending <= invalidLabels
      invariant forall x, y, z | InBounds(data, x, y, z) ::
        newData[x, y, z] == Masked(data[x, y, z], invalidLabels - pending)
      decreases pending
    {
      ghost var next := SomeLabel(pending);  // a witness, so that `:|` below can pick a label
      var l :| l in pending;
      var replacement := Replacement(l);
      if replacement.Some? {
        Relabeling.ReplaceLabel(data, newData, l, replacement.value);
      }
      pending := pending - {l};
    }
  }

  /**
    `relabel_segmentation`, without the file I/O: write the colour table,
    copy the volume, collect its distinct out-of-vocabulary labels and
    replace the cortical ones in the copy. Returns the copy, the number of
    out-of-vocabulary labels (kept ones included), the LUT's file name and
    the LUT's lines.
  */
  method RelabelSegmentation(data: array3<int>)
    returns (newData: array3<int>, count: nat, lutFile: string, lut: seq<string>)
    ensures fresh(newData)
    ensures newData.Length0 == data.Length0 && newData.Length1 == data.Length1 && newData.Length2 == data.Length2
    ensures forall x, y, z | InBounds(data, x, y, z) :: newData[x, y, z] == Remap(data[x, y, z])
    ensures count == |InvalidLabels(LabelSet(data), ValidLabels)|
    ensures lutFile == LutFileName
    ensures forall i | 0 <= i < |LabelOrder| :: LabelOrder[i] in LabelColors
    ensures lut == LutHeader + LutEntries(LabelColors, LabelOrder)
  {
    LabelOrderWithinVocabulary();
    lutFile, lut := CreateColorLut(LabelColors, LabelOrder, LutFileName);
    newData := Relabeling.CopyVolume(data);
    forall x, y, z | InBounds(data, x, y, z) ensures newData[x, y, z] == data[x, y, z] {
      assert Column(newData, y, z)[x] == Column(data, y, z)[x];
    }
    var uniqueLabels := set x, y, z | 0 <= x < data.Length0 && 0 <= y < data.Length1 && 0 <= z < data.Length2
                                      :: data[x, y, z];
    var invalidLabels := InvalidLabels(uniqueLabels, ValidLabels);
    assert uniqueLabels == LabelSet(data);
    ReplaceInvalidLabels(data, newData, invalidLabels);
    forall x, y, z | InBounds(data, x, y, z) ensures newData[x, y, z] == Remap(data[x, y, z]) {
      MaskedIsRemap(data[x, y, z], invalidLabels);
    }
    count := |invalidLabels|;
  }

  /**
    A volume of standard labels only comes out unchanged, with nothing
    reported.
  */
  lemma AllValidVolumeUnchanged(data: array3<int>)
    requires forall x, y, z | InBounds(data, x, y, z) :: data[x, y, z] in ValidLabels
    ensures forall x, y, z | InBounds(data, x, y, z) :: Remap(data[x, y, z]) == data[x, y, z]
    ensures InvalidLabels(LabelSet(data), ValidLabels) == {}
  {
  }
}
