/**
 * The HTTP layer: sequence cleaning, validation of the request body, and the `/predict`
 * handler's checks around the model call. The model call is a parameter of the handler.
 */
module Backend {
  import opened Wrappers
  import Text
  import Inference

  /** The character class of AA_RE. */
  const Alphabet: string := "ACDEFGHIKLMNPQRSTVWYX"
  /** The cap `clean_sequence` applies. */
  const MaxResidues: nat := 1000

  predicate IsAllowed(c: char) {
    c in Alphabet
  }

  predicate AllAllowed(s: string) {
    forall i :: 0 <= i < |s| ==> IsAllowed(s[i])
  }

  // ---------- clean_sequence ----------

  /** `AA_RE.findall(s)`: each allowed character of s, in order, as a one-character match. */
  function FindAll(s: string): (ms: seq<string>)
    ensures |ms| <= |s|
    ensures forall k :: 0 <= k < |ms| ==> |ms[k]| == 1 && IsAllowed(ms[k][0])
  {
    if s == [] then [] else (if IsAllowed(s[0]) then [[s[0]]] else []) + FindAll(s[1..])
  }

  /** `"".join(AA_RE.findall(s))`: the allowed characters of s, in order. */
  function Filtered(s: string): (r: string) {
    Text.Concat(FindAll(s))
  }

  /** Filtering works character by character. */
  lemma FilteredCons(s: string)
    requires s != []
    ensures Filtered(s) == (if IsAllowed(s[0]) then [s[0]] else []) + Filtered(s[1..])
  {
    var head: seq<string> := if IsAllowed(s[0]) then [[s[0]]] else [];
    Text.ConcatAppend(head, FindAll(s[1..]));
    assert Text.Concat(head) == (if IsAllowed(s[0]) then [s[0]] else []);
  }

  /** Filtering a concatenation filters each part. */
  lemma {:induction false} FilteredAppend(a: string, b: string)
    ensures Filtered(a + b) == Filtered(a) + Filtered(b)
  {
    if a == [] {
      assert a + b == b;
    } else {
      FilteredCons(a + b);
      assert (a + b)[1..] == a[1..] + b;
      FilteredAppend(a[1..], b);
      FilteredCons(a);
    }
  }

  /** Filtering keeps only allowed characters, never adds any, and keeps a string that is all allowed. */
  lemma {:induction false} FilteredFacts(s: string)
    ensures AllAllowed(Filtered(s))
    ensures |Filtered(s)| <= |s|
    ensures AllAllowed(s) ==> Filtered(s) == s
  {
    if s != [] {
      FilteredCons(s);
      FilteredFacts(s[1..]);
      assert AllAllowed(s) ==> AllAllowed(s[1..]);
      assert [s[0]] + s[1..] == s;
    }
  }

  /** `joined[:MaxResidues]`: Python slicing past the end returns the whole string. */
  function Truncate(s: string): (r: string)
  {
    if |s| <= MaxResidues then s else s[..MaxResidues]
  }

  /**
   * `clean_sequence`: `(raw or "")` upper-cased, only the alphabet kept, capped at 1000.
   * None stands for a missing value; `""` is falsy and gives `""` as well.
   */
  function CleanSequence(raw: Option<string>): (r: string)
    ensures |r| <= MaxResidues
    ensures AllAllowed(r)
  {
    var up := Text.Upper(raw.GetOr(""));
    FilteredFacts(up);
    Truncate(Text.Concat(FindAll(up)))
  }

  /** The cleaned sequence is the first min(1000, n) of the n allowed characters of the upper-cased input. */
  lemma CleanSequenceIsPrefix(raw: Option<string>)
    ensures var f := Filtered(Text.Upper(raw.GetOr("")));
      var r := CleanSequence(raw);
      |r| == (if |f| < MaxResidues then |f| else MaxResidues) && r == f[..|r|]
  {
  }

  /** A missing input is treated as the empty string and cleans to "". */
  lemma CleanSequenceMissing()
    ensures CleanSequence(None) == ""
    ensures CleanSequence(Some("")) == ""
  {
  }

  /** One character: kept, upper-cased, exactly when its upper-case form is in the alphabet; so 'a' gives "A". */
  lemma CleanSequenceOneChar(c: char)
    ensures CleanSequence(Some([c])) == if IsAllowed(Text.UpperChar(c)) then [Text.UpperChar(c)] else []
  {
    FilteredCons([Text.UpperChar(c)]);
    assert Text.Upper([c]) == [Text.UpperChar(c)];
  }

  /** Every character of the alphabet is its own upper case. */
  lemma AlphabetIsUpper(s: string)
    requires AllAllowed(s)
    ensures Text.Upper(s) == s
  {
    assert Text.IsUpperFixed(s);
    Text.UpperOfFixed(s);
  }

  /** Cleaning is idempotent. */
  lemma CleanSequenceIdempotent(raw: Option<string>)
    ensures CleanSequence(Some(CleanSequence(raw))) == CleanSequence(raw)
  {
    var r := CleanSequence(raw);
    AlphabetIsUpper(r);
    FilteredFacts(r);
  }

  /** Text typed after an input never changes the cleaned form of that input: it stays a prefix. */
  lemma CleanSequenceExtends(a: string, b: string)
    ensures var ra := CleanSequence(Some(a));
      var rab := CleanSequence(Some(a + b));
      |ra| <= |rab| && rab[..|ra|] == ra
  {
    var ua, ub := Text.Upper(a), Text.Upper(b);
    Text.UpperAppend(a, b);
    FilteredAppend(ua, ub);
    var fa, fab := Filtered(ua), Filtered(ua + ub);
    assert fab[..|fa|] == fa;
    assert CleanSequence(Some(a)) == Truncate(fa);
    assert CleanSequence(Some(a + b)) == Truncate(fab);
  }

  // ---------- the request ----------

  /** The JSON body as received: either field may be absent. */
  datatype RequestBody = RequestBody(sequence: Option<string>, indexStart: Option<int>)

  /** PredictRequest after validation. */
  datatype PredictRequest = PredictRequest(sequence: string, indexStart: int)

  datatype PredictResponse = PredictResponse(sequence: string, indexStart: int, states: seq<string>)

  /** What the endpoint answers instead of a response. */
  datatype ApiError =
    | ValidationFailed(fields: seq<string>)          // request body rejected by the field constraints
    | HttpException(status: int, detail: string)     // an HTTPException the handler raises
    | InternalServerError                            // an exception escaping the handler
  {
    function Status(): int {
      match this
      case ValidationFailed(_) => 422
      case HttpException(status, _) => status
      case InternalServerError => 500
    }
  }

  const DefaultIndexStart: int := 1
  const NoValidAminoAcids: string := "No valid amino acids."
  const ModelLengthMismatch: string := "Model length mismatch."

  predicate SequenceFieldOk(body: RequestBody) {
    body.sequence.Some? && |body.sequence.value| >= 1
  }

  predicate IndexStartFieldOk(body: RequestBody) {
    body.indexStart.None? || body.indexStart.value >= 1
  }

  /** The PredictRequest field constraints: `sequence` required with at least one character, `index_start` >= 1, default 1. */
  function ParseRequest(body: RequestBody): (r: Result<PredictRequest, ApiError>)
    ensures r.Ok? <==> SequenceFieldOk(body) && IndexStartFieldOk(body)
    ensures r.Ok? ==> r.value.sequence == body.sequence.value && |r.value.sequence| >= 1
    ensures r.Ok? ==> r.value.indexStart == body.indexStart.GetOr(DefaultIndexStart) && r.value.indexStart >= 1
    ensures r.Err? ==> r.error.ValidationFailed? && r.error.Status() == 422
    ensures r.Err? ==> ("sequence" in r.error.fields <==> !SequenceFieldOk(body))
    ensures r.Err? ==> ("index_start" in r.error.fields <==> !IndexStartFieldOk(body))
  {
    var bad := (if SequenceFieldOk(body) then [] else ["sequence"])
      + (if IndexStartFieldOk(body) then [] else ["index_start"]);
    if bad == [] then Ok(PredictRequest(body.sequence.value, body.indexStart.GetOr(DefaultIndexStart)))
    else Err(ValidationFailed(bad))
  }

  // ---------- the handler ----------

  /** The model call as the handler sees it: the predicted labels, or None when it raises. */
  type Predictor = string -> Option<seq<string>>

  /** `predict`: clean, reject an empty sequence, call the model, check the label count, answer. */
  function Predict(req: PredictRequest, model: Predictor): (r: Result<PredictResponse, ApiError>)
    ensures var cleaned := CleanSequence(Some(req.sequence));
      && (r == Err(HttpException(400, NoValidAminoAcids)) <==> cleaned == [])
      && (cleaned != [] && model(cleaned).None? ==> r == Err(InternalServerError))
      && (cleaned != [] && model(cleaned).Some? && |model(cleaned).value| != |cleaned| ==> r == Err(HttpException(500, ModelLengthMismatch)))
      && (r.Ok? <==> cleaned != [] && model(cleaned).Some? && |model(cleaned).value| == |cleaned|)
      && (r.Ok? ==> r.value == PredictResponse(cleaned, req.indexStart, model(cleaned).value))
  {
    var cleaned := CleanSequence(Some(req.sequence));
    if cleaned == [] then Err(HttpException(400, NoValidAminoAcids))
    else
      match model(cleaned)
      case None => Err(InternalServerError)
      case Some(states) =>
        if |states| != |cleaned| then Err(HttpException(500, ModelLengthMismatch))
        else Ok(PredictResponse(cleaned, req.indexStart, states))
  }

  /** The model is never consulted when the cleaned sequence is empty. */
  lemma PredictIgnoresModelOnEmpty(req: PredictRequest, m1: Predictor, m2: Predictor)
    requires CleanSequence(Some(req.sequence)) == []
    ensures Predict(req, m1) == Predict(req, m2)
  {
  }

  /** POST /predict: body validation first, then the handler. */
  function PostPredict(body: RequestBody, model: Predictor): (r: Result<PredictResponse, ApiError>)
    ensures !(SequenceFieldOk(body) && IndexStartFieldOk(body)) ==> r.Err? && r.error.Status() == 422
    ensures r.Ok? ==> r.value.indexStart >= 1 && r.value.indexStart == body.indexStart.GetOr(DefaultIndexStart)
    ensures r.Ok? ==> |r.value.sequence| >= 1 && |r.value.states| == |r.value.sequence|
    ensures r.Ok? ==> r.value.sequence == CleanSequence(body.sequence)
  {
    match ParseRequest(body)
    case Err(e) => Err(e)
    case Ok(req) => Predict(req, model)
  }

  // ---------- connecting the handler to the inference module ----------

  /** The handler's model call: `predict_secondary_structure`, with any raised fault seen as None. */
  function ServedModel(cfg: Inference.LabelConfig, a: Inference.Artifacts, nets: Inference.Runtime -> Inference.Network)
    : (m: Predictor)
  {
    s => match Inference.PredictSecondaryStructure(cfg, a, nets, s)
         case Ok(labels) => Some(labels)
         case Err(_) => None
  }

  /** A cleaned sequence never sets the gap column of the feature matrix. */
  lemma CleanedHasNoGapColumn(raw: Option<string>)
    ensures var s := CleanSequence(raw);
      forall i :: 0 <= i < |s| ==> Inference.Features(s)[i][21] == 0
  {
    var s := CleanSequence(raw);
    AlphabetIsUpper(s);
    forall i | 0 <= i < |s| ensures Text.UpperChar(s[i]) != Inference.GapCode {
      assert Text.Upper(s)[i] == Text.UpperChar(s[i]);
    }
    Inference.FeaturesNoGapColumn(s);
  }

  /**
   * With weights present and a network that scores every residue against every label,
   * a request with at least one valid residue is answered with one label per residue,
   * each the label of that residue's highest score.
   */
  lemma PredictWithLoadedModel(req: PredictRequest, cfg: Inference.LabelConfig, a: Inference.Artifacts,
                               nets: Inference.Runtime -> Inference.Network)
    requires a.hasTorchScript || a.hasCheckpoint
    requires |cfg.labels| > 0
    requires var cleaned := CleanSequence(Some(req.sequence));
      var logits := nets(if a.hasTorchScript then Inference.TorchScript else Inference.Checkpoint)(Inference.Features(cleaned));
      cleaned != [] && |logits| == |cleaned| && forall i :: 0 <= i < |logits| ==> |logits[i]| == |cfg.labels|
    ensures var cleaned := CleanSequence(Some(req.sequence));
      var logits := nets(if a.hasTorchScript then Inference.TorchScript else Inference.Checkpoint)(Inference.Features(cleaned));
      var r := Predict(req, ServedModel(cfg, a, nets));
      && r.Ok? && r.value.sequence == cleaned && r.value.indexStart == req.indexStart
      && |r.value.states| == |cleaned|
      && forall i :: 0 <= i < |cleaned| ==> r.value.states[i] == cfg.labels[Inference.Argmax(logits[i])]
  {
    var cleaned := CleanSequence(Some(req.sequence));
    var rt := if a.hasTorchScript then Inference.TorchScript else Inference.Checkpoint;
    var logits := nets(rt)(Inference.Features(cleaned));
    var d := Inference.DecodeLabels(cfg.labels, logits);
    assert d.Ok?;
    assert Inference.PredictSecondaryStructure(cfg, a, nets, cleaned) == d;
    assert ServedModel(cfg, a, nets)(cleaned) == Some(d.value);
  }

  /**
   * When the handler is reached with nothing loaded, the lazy load finds no weight artifact
   * and raises, so a request with a valid residue ends in a 500.
   */
  lemma PredictWithoutArtifacts(req: PredictRequest, cfg: Inference.LabelConfig, nets: Inference.Runtime -> Inference.Network)
    requires CleanSequence(Some(req.sequence)) != []
    ensures Predict(req, ServedModel(cfg, Inference.Artifacts(false, false), nets)) == Err(InternalServerError)
  {
  }
}
