# Origami secondary-structure predictor: a verified model of its discrete logic

Origami serves a small convolutional network that predicts, for each residue of a protein,
one Q3 secondary-structure class: helix (`H`), strand (`E`) or coil (`C`). The network itself
is floating-point tensor code. Around it sits a layer of deterministic logic, and this
project models that layer in Dafny and proves properties of it:

- **Backend HTTP layer** (`website/backend/main.py`, module `Backend` in `backend.dfy`).
  `clean_sequence` upper-cases the input, keeps only the 21 letters `ACDEFGHIKLMNPQRSTVWYX`
  and caps the result at 1000 residues. The `PredictRequest` field constraints require a
  non-empty `sequence` and an `index_start` of at least 1, which defaults to 1. The `/predict`
  handler answers 400 for a sequence with no valid residue and 500 when the model returns the
  wrong number of labels. Otherwise it echoes the cleaned sequence and `index_start`.
- **Inference module** (`website/backend/model.py`, module `Inference` in `inference.dfy`).
  It holds the 22-code amino-acid table and its index map, and the featurizer, which
  builds a 24-column 0/1 matrix: a one-hot block plus N- and C-terminal flags. The
  featurizer is an imperative method over `array2<int>`, proved equal to the specification
  function `Features`. The module also builds the label table from training metadata
  (falling back to `["H","E","C"]`), decodes each residue by argmax, and tries the weight
  artifacts in order: TorchScript, then the checkpoint, else an error.
- **Client** (`frontend/src/App.js`, module `Frontend` in `frontend.dfy`). It has its own
  copy of sequence cleaning, proved to agree with the server's. It also covers the
  placeholder states, the clamped index-start field (with JavaScript `parseInt`), the
  summary counts, the CSV export, the CSS class per state and the grid ticks. The
  component state is a class (`Frontend.App`) whose methods are the input handlers and the
  settled prediction call.
- Shared helpers: `Text` (ASCII upper-casing, `join`, `split`), `Decimal` (decimal text of
  integers, as written by Python's `str` and JavaScript's `String`, and reading it back),
  `Wrappers` (`Option`, `Result`).

I/O stays outside the model. The network is a parameter: a function from feature rows to
one row of integer scores per residue, with integers standing in for float logits. The
metadata file becomes an optional `Meta` value. The existence of the weight files becomes
two booleans. A settled `fetch` becomes a `Reply` value.

One place where the code and its own documentation differ: the docstring of
`predict_secondary_structure` lists 20 letters, but the cleaner also keeps `X`. The model
follows the code.

## Model

| member | source | states |
|---|---|---|
| `Backend.FindAll` | website/backend/main.py:41 | every match is one character of the alphabet, and there are no more matches than input characters |
| `Backend.FilteredAppend` | website/backend/main.py:41 | joining the matches distributes over concatenation of the input: filter(a + b) = filter(a) + filter(b) |
| `Backend.CleanSequence` | website/backend/main.py:39-42 | the result has at most 1000 characters, every one in `ACDEFGHIKLMNPQRSTVWYX`; what it keeps of the input is stated by `CleanSequenceIsPrefix`, `CleanSequenceIdempotent` and `CleanSequenceOneChar` |
| `Backend.CleanSequenceIsPrefix` | website/backend/main.py:40-42 | the result is the first min(1000, n) characters of the n allowed characters of the upper-cased input, in order |
| `Backend.CleanSequenceMissing` | website/backend/main.py:40 | a missing (`None`) input and an empty one both clean to `""` |
| `Backend.CleanSequenceOneChar` | website/backend/main.py:40-41 | one character is kept, in upper case, exactly when its upper case is in the alphabet: lower-case valid letters survive as upper case |
| `Backend.CleanSequenceIdempotent` | website/backend/main.py:39-42 | cleaning a cleaned sequence changes nothing |
| `Backend.CleanSequenceExtends` | website/backend/main.py:39-42 | the cleaned form of an input is a prefix of the cleaned form of any extension of it |
| `Backend.ParseRequest` | website/backend/main.py:11-13 | a body is accepted exactly when `sequence` is present with at least one character and `index_start` is absent or at least 1; accepted requests carry `index_start` (default 1) >= 1; a rejection is a 422 naming exactly the failing fields |
| `Backend.Predict` | website/backend/main.py:44-54 | 400 exactly when the cleaned sequence is empty (the model result is not consulted); 500 when the model raises or returns a label count different from the cleaned length; otherwise the response is the cleaned sequence, the request's `index_start` and the model's labels |
| `Backend.PredictIgnoresModelOnEmpty` | website/backend/main.py:46-50 | for an input that cleans to nothing, the answer is the same whatever the model would do |
| `Backend.PostPredict` | website/backend/main.py:44-54 | an invalid body gets 422; every success has `index_start` >= 1 and equal to the sent one (or 1), a non-empty cleaned sequence and exactly one state per residue |
| `Backend.CleanedHasNoGapColumn` | website/backend/model.py:68 | for any output of the cleaner, the gap column (21) of the feature matrix is 0 in every row |
| `Backend.PredictWithLoadedModel` | website/backend/main.py:50-54 | with a weight artifact present and a network that scores every residue against every label, a request with a valid residue succeeds with one label per residue, each the label of that residue's highest score |
| `Backend.PredictWithoutArtifacts` | website/backend/model.py:133-135 | when the handler is reached with nothing loaded and neither artifact exists, the lazy load raises and a request with a valid residue ends in a 500 |
| `Inference.IndexMapInverse` | website/backend/model.py:59 | for distinct codes, the enumeration map and the code list are inverse bijections between the codes and 0..len-1 |
| `Inference.AaToIdxBijection` | website/backend/model.py:58-59 | `AA_TO_IDX` maps the 22 codes one-to-one onto 0..21, with `X` at 20 and `-` at 21 |
| `Inference.ColumnOf` | website/backend/model.py:77 | the column is below 22, is the character's own code for a known character, and is 20 (`X`) for any other |
| `Inference.Features` | website/backend/model.py:61-87 | the feature matrix has one row per input character, each 24 wide |
| `Inference.OneHotBlock` | website/backend/model.py:74-78 | after the loop, row r of the 22-wide block has a 1 in the column of residue r and 0 elsewhere |
| `Inference.TerminalBlock` | website/backend/model.py:80-84 | the flag block has the N-terminal flag only in row 0 and the C-terminal flag only in row n-1 |
| `Inference.Featurize` | website/backend/model.py:61-87 | the array has `len(seq)` rows and 24 columns and equals the feature matrix entry by entry |
| `Inference.FeaturesOneHot` | website/backend/model.py:71-78 | in every row, columns 0..21 hold 0/1 with exactly one 1: in the column of the upper-cased residue, or in column 20 for an unknown character |
| `Inference.FeaturesTerminalFlags` | website/backend/model.py:80-84 | column 22 is 1 exactly in row 0 and column 23 exactly in row L-1; a one-residue input has both in its single row |
| `Inference.FeaturesNoGapColumn` | website/backend/model.py:68 | an input with no `-` leaves column 21 at 0 in every row |
| `Inference.LookupLabels` | website/backend/model.py:37 | the comprehension succeeds exactly when every key "0".."n-1" is present, and then label i is `label_map[str(i)]` |
| `Inference.LoadLabelConfig` | website/backend/model.py:18-41 | no metadata gives 3 classes and `["H","E","C"]`; the class count comes from metadata (default 3); with a label map that has every key, `LABELS[i] == label_map[str(i)]`; a missing key, or no map, leaves the defaults |
| `Inference.Argmax` | website/backend/model.py:146 | the index is in range, its score is maximal, and every earlier score is strictly smaller (the first maximum) |
| `Inference.DecodeLabels` | website/backend/model.py:144-147 | decoding succeeds exactly when every row is non-empty and its argmax indexes the label table; then there is one label per row, `LABELS[argmax(row)]` |
| `Inference.LoadModel` | website/backend/model.py:112-124 | TorchScript exactly when that artifact exists; the checkpoint exactly when only it exists; the "no artifacts" error exactly when neither does |
| `Inference.PredictSecondaryStructure` | website/backend/model.py:128-147 | without artifacts it fails; otherwise it decodes the scores of the TorchScript network when present, else of the checkpoint network |
| `Decimal.NatToDecimal` | website/backend/model.py:37 | `str(i)` is non-empty, all digits, and starts with `0` only for 0 |
| `Decimal.NatToDecimalInjective` | website/backend/model.py:37 | distinct class indices give distinct label-map keys |
| `Frontend.GenerateDummyStates` | frontend/src/App.js:8-11 | n entries, every one `"N"` |
| `Frontend.MatchAllIsFindAll` | frontend/src/App.js:24 | the client's global match is null exactly when the server's `findall` is empty, and otherwise the same matches |
| `Frontend.CleanSequence` | frontend/src/App.js:22-26 | at most 1000 characters, all from the same alphabet |
| `Frontend.CleanSequenceAgrees` | frontend/src/App.js:22-26 | client and server clean every input to the same string |
| `Frontend.ParseInt10OfDecimal` | frontend/src/App.js:37 | `parseInt(String(n), 10)` is n for every integer n |
| `Frontend.ClampIndex` | frontend/src/App.js:39 | the value is in [1, 1e9]: 1 below, 1e9 above, the value itself in range |
| `Frontend.IndexStartFor` | frontend/src/App.js:36-40 | the stored index start is always in [1, 1e9]: 1 when `parseInt` gives NaN, otherwise the clamped number |
| `Frontend.IndexFieldRoundTrip` | frontend/src/App.js:36-40 | for every index start in [1, 1e9], re-reading its displayed text gives the same index start |
| `Frontend.CountsBounded` | frontend/src/App.js:65-67 | H + E + C counts never exceed the number of states |
| `Frontend.Counts` | frontend/src/App.js:64-69 | the tallies count H, E and C, their sum is at most `states.length`, and N is the sequence length when non-zero, else 1 |
| `Frontend.StateClass` | frontend/src/App.js:87 | H, E and C map to `state-H`, `state-E`, `state-C`; every other value to `state-N` |
| `Frontend.CellClassesMatchCounts` | frontend/src/App.js:143 | styling every state with `stateClass`, the helix, strand and coil classes occur exactly as often as the H, E and C counts, and every other state gets `state-N` (the grid shows the first min(sequence.length, states.length) of them) |
| `Frontend.CsvLines` | frontend/src/App.js:73-75 | one data line per aligned residue: `min(sequence.length, states.length)` lines |
| `Frontend.CsvRows` | frontend/src/App.js:72-76 | the file splits at newlines into the header `Index,Residue,State` and one row per aligned residue (a single empty row when there are none) |
| `Frontend.CsvLineFields` | frontend/src/App.js:75 | line i has the fields `indexStart+i`, `sequence[i]`, `states[i]`, and its first field parses back to `indexStart+i` |
| `Frontend.JsRemainder10` | frontend/src/App.js:139 | JavaScript's `%` by 10 is 0 exactly on multiples of 10 |
| `Frontend.TickShowsMultiplesOfTen` | frontend/src/App.js:138-139 | a tick shows a number exactly on multiples of 10, and that number parses back to the index; elsewhere it is `·` |
| `Frontend.ErrorMessage` | frontend/src/App.js:58 | the stored error is never empty: the message when there is one, and exactly "Prediction failed" when the message is empty |
| `Frontend.App.constructor` | frontend/src/App.js:15-19 | the initial state: empty sequence, no states, index start 1, not loading, no error; `Valid()` (index start >= 1) holds |
| `Frontend.App.OnSeqChange` | frontend/src/App.js:28-34 | afterwards the sequence is the cleaned input, there is one `"N"` state per residue, and the error is `""`; nothing else changes |
| `Frontend.App.OnIndexChange` | frontend/src/App.js:36-40 | afterwards the index start is 1 for a field `parseInt` cannot read, else the clamped number, so always in [1, 1e9] and `Valid()` holds; nothing else changes |
| `Frontend.App.RequestBody` | frontend/src/App.js:50 | the posted body carries the current sequence and index start; while `Valid()` holds, its start index always passes the server's field check, so the body is refused there exactly when the sequence is empty |
| `Frontend.App.RunPredict` | frontend/src/App.js:43-62 | a delivered answer replaces sequence, states and index start and clears the error; a failure keeps them and stores the message (or the fallback); loading is off afterwards; `Valid()` is kept unless an answer carries an index start below 1 |
| `Frontend.ServerEchoesClientSequence` | frontend/src/App.js:47-54 | a non-empty client-cleaned sequence posted with an index start >= 1 comes back unchanged, with the same index start and the model's labels |
| `Frontend.EditAndPredict` | frontend/src/App.js:28-62 | typing into the text area and pressing Predict against the in-process server: a non-empty cleaned sequence that the model labels in full comes back as the sequence shown, with one state per residue and no error; otherwise the cleaned text keeps its `"N"` placeholders and a non-empty error is shown; the index start is unchanged and `Valid()` still holds |
| `Frontend.ServedFailure` | website/backend/main.py:44-54 | a cleaned client sequence that is empty, or that the model fails on or mislabels in length, is answered with an error |
| `Frontend.EmptySequenceIsRefused` | website/backend/main.py:12 | posting the initial empty text area is refused by field validation with 422 |

## Left out

- Upper-casing: Python's `str.upper` and JavaScript's `toUpperCase` use full Unicode case mapping. The model maps only `a`..`z`, so inputs such as U+0131 (dotless i, upper-cased to `I`) or ligatures are not modelled.
- The network (`website/backend/model_arch.py`) and all tensor code: the forward pass is a parameter, and its scores are integers rather than floats. Argmax is the first maximal index over integers.
- `Inference.Featurize`: the `[1, L, 24]` float tensor and its batch dimension are not modelled. The method returns the `[L, 24]` integer matrix.
- `Inference.PredictSecondaryStructure`: the `logits.dim() == 3` squeeze is not modelled; the network is assumed to return the `[L, C]` matrix directly.
- Weight loading: `torch.jit.load`, `torch.load`, `load_state_dict`, a checkpoint without `state_dict`, and the `val_acc` entry of the info dict. Only the choice between the two artifacts is modelled. The globals `_MODEL_TS` and `_MODEL` are represented by the `Runtime` value.
- Reading `meta.json`: the file becomes an optional `Meta`. A `num_classes` value that `int()` cannot convert, and label-map values that are not strings, are not modelled.
- A failed load at startup (`website/backend/main.py:30-33`, `website/backend/model.py:119-123`): `load_model` raising in the startup hook aborts the server, so no request is ever served. The model starts from a reachable handler and captures only the lazy load at `website/backend/model.py:134-135`.
- `Frontend.EditAndPredict`: the text of an error response is the framework's rendering of the error, a parameter of the method.
- FastAPI plumbing: app setup, CORS, the startup hook and global `MODEL`, `/healthz`, `current_model_info`, and the debug prints.
- `Backend.ParseRequest`: pydantic's JSON type coercion is not modelled, nor the full error document; the 422 detail is reduced to the list of failing field names.
- Client I/O and rendering: the asynchronous `fetch` and JSON parsing, the Blob/URL/DOM download, React hooks and markup, and the disabled state of the button.
- `Frontend.App.RunPredict`: only the settled state is stated. The intermediate state while the request is in flight (`isLoading` true, error cleared) is not observable in the model.
- Percentages: `Math.round(counts / N * 100)` is floating-point display only.
- JavaScript numbers are modelled as exact integers. `parseInt` rounds digit strings above 2^53, but the clamp to [1, 1e9] gives the same index start either way. `String(n)` switches to exponent notation from 1e21; the model always writes plain decimal.
- The unused placeholders `_one_hot_20` and `_extra_4_features`.
