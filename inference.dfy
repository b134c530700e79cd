/**
 * The inference module around the network: the amino-acid index table, the per-residue
 * feature encoding, the label table read from training metadata, argmax decoding of the
 * network's per-residue scores and the order in which weight artifacts are tried.
 * The network itself is a parameter; its scores are integers standing in for float logits.
 */
module Inference {
  import opened Wrappers
  import Text
  import Decimal

  // ---------- amino-acid codes ----------

  /** The 20 canonical residues, then 'X' (unknown) and '-' (gap), in training order. */
  const AaCodes: string := "ACDEFGHIKLMNPQRSTVWY" + "X" + "-"
  const OneHotWidth: nat := 22
  const FeatureWidth: nat := 24
  const UnknownCode: char := 'X'
  const GapCode: char := '-'

  predicate Distinct(s: string) {
    forall i, j :: 0 <= i < j < |s| ==> s[i] != s[j]
  }

  /** `{a: i for i, a in enumerate(codes)}`: later occurrences overwrite earlier ones. */
  function IndexMap(codes: string): (m: map<char, nat>)
  {
    if codes == [] then map[] else IndexMap(codes[..|codes| - 1])[codes[|codes| - 1] := |codes| - 1]
  }

  /** AA_TO_IDX. */
  const AaToIdx: map<char, nat> := IndexMap(AaCodes)

  /** For distinct codes the enumeration map and the code list are inverse to each other. */
  lemma {:induction false} IndexMapInverse(codes: string)
    requires Distinct(codes)
    ensures forall c :: c in IndexMap(codes) <==> c in codes
    ensures forall i :: 0 <= i < |codes| ==> IndexMap(codes)[codes[i]] == i
    ensures forall c :: c in IndexMap(codes) ==> IndexMap(codes)[c] < |codes| && codes[IndexMap(codes)[c]] == c
  {
    if codes != [] {
      var init := codes[..|codes| - 1];
      assert Distinct(init);
      IndexMapInverse(init);
      forall c ensures c in codes <==> c in init || c == codes[|codes| - 1] {
        if c in codes {
          var k :| 0 <= k < |codes| && codes[k] == c;
          if k < |codes| - 1 { assert init[k] == c; }
        }
        if c in init {
          var k :| 0 <= k < |init| && init[k] == c;
          assert codes[k] == c;
        }
      }
    }
  }

  /** AA_TO_IDX is a bijection from the 22 codes onto 0..21, with 'X' at 20 and '-' at 21. */
  lemma AaToIdxBijection()
    ensures |AaCodes| == OneHotWidth
    ensures forall c :: c in AaToIdx <==> c in AaCodes
    ensures forall i :: 0 <= i < OneHotWidth ==> AaToIdx[AaCodes[i]] == i
    ensures forall c :: c in AaToIdx ==> AaToIdx[c] < OneHotWidth && AaCodes[AaToIdx[c]] == c
    ensures UnknownCode in AaToIdx && AaToIdx[UnknownCode] == 20
    ensures GapCode in AaToIdx && AaToIdx[GapCode] == 21
  {
    assert Distinct(AaCodes);
    IndexMapInverse(AaCodes);
    assert AaCodes[20] == UnknownCode && AaCodes[21] == GapCode;
  }

  /** `AA_TO_IDX.get(ch, AA_TO_IDX["X"])`: the one-hot column of an (upper-cased) character. */
  function ColumnOf(ch: char): (j: nat)
    ensures j < OneHotWidth
    ensures ch in AaCodes ==> AaCodes[j] == ch
    ensures ch !in AaCodes ==> j == 20
  {
    AaToIdxBijection();
    if ch in AaToIdx then AaToIdx[ch] else AaToIdx[UnknownCode]
  }

  // ---------- features ----------

  function OneHotRow(k: nat): (row: seq<int>) {
    seq(OneHotWidth, j => if j == k then 1 else 0)
  }

  function TerminalFlags(i: nat, len: nat): (flags: seq<int>) {
    [if i == 0 then 1 else 0, if i == len - 1 then 1 else 0]
  }

  /** The feature matrix `_featurize` builds, as rows: one-hot over AaCodes, then the N- and C-terminal flags. */
  function Features(s: string): (m: seq<seq<int>>)
    ensures |m| == |s|
    ensures forall i :: 0 <= i < |m| ==> |m[i]| == FeatureWidth
  {
    var up := Text.Upper(s);
    seq(|up|, i requires 0 <= i < |up| => OneHotRow(ColumnOf(up[i])) + TerminalFlags(i, |up|))
  }

  /** Row i of the feature matrix. */
  lemma FeaturesRow(s: string, i: nat)
    requires i < |s|
    ensures Features(s)[i] == OneHotRow(ColumnOf(Text.Upper(s)[i])) + TerminalFlags(i, |s|)
  {
  }

  /** An entry of a one-hot row followed by terminal flags. */
  lemma RowEntry(k: nat, i: nat, len: nat, j: nat)
    requires j < FeatureWidth
    ensures var row := OneHotRow(k) + TerminalFlags(i, len);
      && (j < OneHotWidth ==> row[j] == (if j == k then 1 else 0))
      && (j == 22 ==> row[j] == (if i == 0 then 1 else 0))
      && (j == 23 ==> row[j] == (if i == len - 1 then 1 else 0))
  {
    var row := OneHotRow(k) + TerminalFlags(i, len);
    if j < OneHotWidth {
      assert row[j] == OneHotRow(k)[j];
    } else {
      assert row[j] == TerminalFlags(i, len)[j - OneHotWidth];
    }
  }

  /** One entry of the feature matrix, column by column. */
  lemma FeaturesAt(s: string, i: nat, j: nat)
    requires i < |s| && j < FeatureWidth
    ensures j < OneHotWidth ==> Features(s)[i][j] == (if j == ColumnOf(Text.Upper(s)[i]) then 1 else 0)
    ensures j == 22 ==> Features(s)[i][j] == (if i == 0 then 1 else 0)
    ensures j == 23 ==> Features(s)[i][j] == (if i == |s| - 1 then 1 else 0)
  {
    FeaturesRow(s, i);
    RowEntry(ColumnOf(Text.Upper(s)[i]), i, |s|, j);
  }

  /** The 22-wide one-hot block: a zero matrix with one 1 written per row. */
  method OneHotBlock(up: string) returns (onehot: array2<int>)
    ensures fresh(onehot)
    ensures onehot.Length0 == |up| && onehot.Length1 == OneHotWidth
    ensures forall r, c :: 0 <= r < |up| && 0 <= c < OneHotWidth ==>
      onehot[r, c] == (if c == ColumnOf(up[r]) then 1 else 0)
  {
    var n := |up|;
    onehot := new int[n, OneHotWidth]((i, j) => 0);
    for i := 0 to n
      invariant forall r, c :: 0 <= r < n && 0 <= c < OneHotWidth ==>
        onehot[r, c] == (if r < i && c == ColumnOf(up[r]) then 1 else 0)
    {
      var idx := ColumnOf(up[i]);
      onehot[i, idx] := 1;
    }
  }

  /** The 2-wide block of terminal flags: N-terminal in row 0, C-terminal in row n-1. */
  method TerminalBlock(n: nat) returns (nc: array2<int>)
    ensures fresh(nc)
    ensures nc.Length0 == n && nc.Length1 == 2
    ensures forall r :: 0 <= r < n ==> nc[r, 0] == (if r == 0 then 1 else 0)
    ensures forall r :: 0 <= r < n ==> nc[r, 1] == (if r == n - 1 then 1 else 0)
  {
    nc := new int[n, 2]((i, j) => 0);
    if n > 0 {
      nc[0, 0] := 1;
      nc[n - 1, 1] := 1;
    }
  }

  /**
   * `_featurize`: upper-case, build the one-hot block and the terminal flags, and
   * concatenate them along the columns. The batch dimension torch adds is left out.
   */
  method Featurize(s: string) returns (feats: array2<int>)
    ensures fresh(feats)
    ensures feats.Length0 == |s| && feats.Length1 == FeatureWidth
    ensures forall i, j :: 0 <= i < feats.Length0 && 0 <= j < feats.Length1 ==> feats[i, j] == Features(s)[i][j]
  {
    var up := Text.Upper(s);
    var n := |up|;
    var onehot := OneHotBlock(up);
    var nc := TerminalBlock(n);
    feats := new int[n, FeatureWidth]((i, j) reads onehot, nc =>
      if 0 <= i < n && 0 <= j < OneHotWidth then onehot[i, j]
      else if 0 <= i < n && OneHotWidth <= j < FeatureWidth then nc[i, j - OneHotWidth]
      else 0);
    forall i, j | 0 <= i < n && 0 <= j < FeatureWidth
      ensures feats[i, j] == Features(s)[i][j]
    {
      FeaturesAt(s, i, j);
    }
  }

  /** Every row has a single 1 among columns 0..21, in the column of its residue, or in column 20 ('X') when unknown. */
  lemma FeaturesOneHot(s: string, i: nat)
    requires i < |s|
    ensures forall j :: 0 <= j < OneHotWidth ==> Features(s)[i][j] in {0, 1}
    ensures forall j :: 0 <= j < OneHotWidth ==> (Features(s)[i][j] == 1 <==> j == ColumnOf(Text.UpperChar(s[i])))
    ensures forall j :: 0 <= j < OneHotWidth && AaCodes[j] == Text.UpperChar(s[i]) ==> Features(s)[i][j] == 1
    ensures Text.UpperChar(s[i]) !in AaCodes ==> Features(s)[i][20] == 1
  {
    AaToIdxBijection();
    var c := Text.UpperChar(s[i]);
    assert Features(s)[i] == OneHotRow(ColumnOf(c)) + TerminalFlags(i, |s|);
    forall j | 0 <= j < OneHotWidth && AaCodes[j] == c ensures j == ColumnOf(c) {
      assert AaToIdx[AaCodes[j]] == j;
      assert AaCodes[ColumnOf(c)] == c;
      assert AaToIdx[AaCodes[ColumnOf(c)]] == ColumnOf(c);
    }
  }

  /** Column 22 is set only in row 0, column 23 only in the last row; a one-residue input has both in its only row. */
  lemma FeaturesTerminalFlags(s: string)
    ensures forall i :: 0 <= i < |s| ==> (Features(s)[i][22] == 1 <==> i == 0)
    ensures forall i :: 0 <= i < |s| ==> (Features(s)[i][23] == 1 <==> i == |s| - 1)
    ensures forall i :: 0 <= i < |s| ==> Features(s)[i][22] in {0, 1} && Features(s)[i][23] in {0, 1}
    ensures |s| == 1 ==> Features(s)[0][22] == 1 && Features(s)[0][23] == 1
  {
    forall i | 0 <= i < |s|
      ensures Features(s)[i][22] == (if i == 0 then 1 else 0)
      ensures Features(s)[i][23] == (if i == |s| - 1 then 1 else 0)
    {
      var up := Text.Upper(s);
      assert Features(s)[i] == OneHotRow(ColumnOf(up[i])) + TerminalFlags(i, |s|);
    }
  }

  /** For a string with no '-', the gap column is 0 in every row. */
  lemma FeaturesNoGapColumn(s: string)
    requires forall i :: 0 <= i < |s| ==> Text.UpperChar(s[i]) != GapCode
    ensures forall i :: 0 <= i < |s| ==> Features(s)[i][21] == 0
  {
    AaToIdxBijection();
    forall i | 0 <= i < |s| ensures Features(s)[i][21] == 0 {
      FeaturesOneHot(s, i);
    }
  }

  // ---------- labels ----------

  const DefaultLabels: seq<string> := ["H", "E", "C"]
  const DefaultNumClasses: int := 3

  /** The parts of meta.json that the label table depends on. */
  datatype Meta = Meta(numClasses: Option<int>, labelMap: Option<map<string, string>>)

  /** NUM_CLASSES and LABELS after the module has read its metadata. */
  datatype LabelConfig = LabelConfig(numClasses: int, labels: seq<string>)

  /** `[label_map[str(i)] for i in range(n)]`, with None where a key is missing and the lookup raises. */
  function LookupLabels(labelMap: map<string, string>, n: nat): (r: Option<seq<string>>)
    ensures r.Some? <==> forall i :: 0 <= i < n ==> Decimal.NatToDecimal(i) in labelMap
    ensures r.Some? ==> |r.value| == n
    ensures r.Some? ==> forall i :: 0 <= i < n ==> r.value[i] == labelMap[Decimal.NatToDecimal(i)]
  {
    if n == 0 then Some([])
    else
      var prefix := LookupLabels(labelMap, n - 1);
      var key := Decimal.NatToDecimal(n - 1);
      if prefix.None? then
        assert exists w :: 0 <= w < n && Decimal.NatToDecimal(w) !in labelMap by {
          var w :| 0 <= w < n - 1 && Decimal.NatToDecimal(w) !in labelMap;
          assert 0 <= w < n;
        }
        None
      else if key in labelMap then Some(prefix.value + [labelMap[key]])
      else
        assert Decimal.NatToDecimal(n - 1) !in labelMap;
        None
  }

  /**
   * The label table: the default Q3 labels unless the metadata has a label map that
   * supplies every key "0".."C-1", with C the metadata's class count (3 when absent).
   */
  function LoadLabelConfig(meta: Option<Meta>): (cfg: LabelConfig)
    ensures meta.None? ==> cfg == LabelConfig(DefaultNumClasses, DefaultLabels)
    ensures meta.Some? ==> cfg.numClasses == meta.value.numClasses.GetOr(DefaultNumClasses)
    ensures meta.Some? && meta.value.labelMap.None? ==> cfg.labels == DefaultLabels
    ensures meta.Some? && meta.value.labelMap.Some? ==>
      var lm := meta.value.labelMap.value;
      var c := cfg.numClasses;
      if forall i :: 0 <= i < c ==> Decimal.NatToDecimal(i) in lm then
        |cfg.labels| == (if c < 0 then 0 else c) &&
        forall i :: 0 <= i < c ==> cfg.labels[i] == lm[Decimal.NatToDecimal(i)]
      else cfg.labels == DefaultLabels
  {
    match meta
    case None => LabelConfig(DefaultNumClasses, DefaultLabels)
    case Some(m) =>
      var n := m.numClasses.GetOr(DefaultNumClasses);
      var labels :=
        match m.labelMap
        case None => DefaultLabels
        case Some(lm) =>
          match LookupLabels(lm, if n < 0 then 0 else n)
          case Some(ls) => ls
          case None => DefaultLabels;
      LabelConfig(n, labels)
  }

  // ---------- decoding ----------

  /** `argmax` over one row of scores: the first index of a maximal score. */
  function Argmax(row: seq<int>): (k: nat)
    requires |row| > 0
    ensures k < |row|
    ensures forall j :: 0 <= j < |row| ==> row[j] <= row[k]
    ensures forall j :: 0 <= j < k ==> row[j] < row[k]
  {
    if |row| == 1 then 0
    else
      var k := Argmax(row[..|row| - 1]);
      if row[|row| - 1] > row[k] then |row| - 1 else k
  }

  datatype Fault = NoModelArtifacts | EmptyScoreRow | LabelIndexOutOfRange

  /**
   * `[LABELS[i] for i in logits.argmax(dim=-1)]`: argmax over an empty row raises, and so
   * does an index past the end of the label table.
   */
  function DecodeLabels(labels: seq<string>, logits: seq<seq<int>>): (r: Result<seq<string>, Fault>)
    ensures r.Ok? <==> forall i :: 0 <= i < |logits| ==> |logits[i]| > 0 && Argmax(logits[i]) < |labels|
    ensures r.Ok? ==> |r.value| == |logits|
    ensures r.Ok? ==> forall i :: 0 <= i < |logits| ==> r.value[i] == labels[Argmax(logits[i])]
    ensures r.Ok? ==> forall i :: 0 <= i < |logits| ==> r.value[i] in labels
  {
    if exists i :: 0 <= i < |logits| && |logits[i]| == 0 then Err(EmptyScoreRow)
    else if exists i :: 0 <= i < |logits| && Argmax(logits[i]) >= |labels| then Err(LabelIndexOutOfRange)
    else Ok(seq(|logits|, i requires 0 <= i < |logits| => labels[Argmax(logits[i])]))
  }

  // ---------- weights ----------

  /** Which weight artifacts exist on disk. */
  datatype Artifacts = Artifacts(hasTorchScript: bool, hasCheckpoint: bool)

  /** The runtime a successful load leaves behind. */
  datatype Runtime = TorchScript | Checkpoint

  /** `_load_torchscript`: None stands for the empty info dict. */
  function LoadTorchScript(a: Artifacts): (rt: Option<Runtime>) {
    if a.hasTorchScript then Some(TorchScript) else None
  }

  /** `_load_checkpoint`: None stands for the empty info dict. */
  function LoadCheckpoint(a: Artifacts): (rt: Option<Runtime>) {
    if !a.hasCheckpoint then None else Some(Checkpoint)
  }

  /** `load_model`: TorchScript first, the checkpoint as fallback, an error when neither exists. */
  function LoadModel(a: Artifacts): (r: Result<Runtime, Fault>)
    ensures r == Ok(TorchScript) <==> a.hasTorchScript
    ensures r == Ok(Checkpoint) <==> !a.hasTorchScript && a.hasCheckpoint
    ensures r == Err(NoModelArtifacts) <==> !a.hasTorchScript && !a.hasCheckpoint
  {
    var info := LoadTorchScript(a);
    var info' := if info.None? then LoadCheckpoint(a) else info;
    if info'.None? then Err(NoModelArtifacts) else Ok(info'.value)
  }

  /** A network maps the feature rows of a sequence to one row of class scores per residue. */
  type Network = seq<seq<int>> -> seq<seq<int>>

  /**
   * `predict_secondary_structure`: load if needed, featurize, run the network of the
   * loaded runtime and decode the scores into labels.
   */
  function PredictSecondaryStructure(cfg: LabelConfig, a: Artifacts, nets: Runtime -> Network, s: string)
    : (r: Result<seq<string>, Fault>)
    ensures !a.hasTorchScript && !a.hasCheckpoint ==> r == Err(NoModelArtifacts)
    ensures a.hasTorchScript ==> r == DecodeLabels(cfg.labels, nets(TorchScript)(Features(s)))
    ensures !a.hasTorchScript && a.hasCheckpoint ==> r == DecodeLabels(cfg.labels, nets(Checkpoint)(Features(s)))
  {
    match LoadModel(a)
    case Err(e) => Err(e)
    case Ok(rt) => DecodeLabels(cfg.labels, nets(rt)(Features(s)))
  }
}
