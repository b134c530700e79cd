/**
 * The single-page client: its own copy of sequence cleaning, the index-start field, the
 * placeholder states, the summary counts, the CSV export, the per-residue CSS class and
 * grid ticks, and the component state that the input handlers and the prediction call update.
 */
module Frontend {
  import opened Wrappers
  import Text
  import Decimal
  import Backend

  /** The character class of the client's AA_RE. */
  const AaPattern: string := "ACDEFGHIKLMNPQRSTVWYX"
  const MaxResidues: nat := 1000
  const MaxIndexStart: int := 1_000_000_000
  const DummySeq: string := ""
  const DummyPattern: seq<string> := ["N"]
  const FallbackError: string := "Prediction failed"

  // ---------- placeholders ----------

  /** `generateDummyStates(n)`: n entries cycling through the pattern ["N"]. */
  function GenerateDummyStates(n: nat): (r: seq<string>)
    ensures |r| == n
    ensures forall i :: 0 <= i < n ==> r[i] == "N"
  {
    seq(n, i requires 0 <= i < n => DummyPattern[i % |DummyPattern|])
  }

  // ---------- cleanSequence ----------

  /** `s.match(AA_RE)` with the global flag: null when nothing matches, otherwise every match in order. */
  function MatchAll(s: string): (r: Option<seq<string>>)
  {
    if s == [] then None
    else
      var rest := MatchAll(s[1..]);
      if s[0] in AaPattern then Some([[s[0]]] + (if rest.Some? then rest.value else []))
      else rest
  }

  /** The client's matcher finds what the server's `findall` finds, and null exactly when that is empty. */
  lemma {:induction false} MatchAllIsFindAll(s: string)
    ensures MatchAll(s) == if Backend.FindAll(s) == [] then None else Some(Backend.FindAll(s))
  {
    if s != [] {
      MatchAllIsFindAll(s[1..]);
      assert AaPattern == Backend.Alphabet;
      var tail := Backend.FindAll(s[1..]);
      if s[0] in AaPattern {
        assert Backend.FindAll(s) == [[s[0]]] + tail;
        assert MatchAll(s) == Some([[s[0]]] + tail);
      } else {
        assert Backend.FindAll(s) == tail;
        assert MatchAll(s) == MatchAll(s[1..]);
      }
    }
  }

  /** `cleanSequence`: `(raw || "")` upper-cased, the matches joined (none when null), `.slice(0, 1000)`. */
  function CleanSequence(raw: Option<string>): (r: string)
    ensures |r| <= MaxResidues
    ensures forall i :: 0 <= i < |r| ==> r[i] in AaPattern
  {
    var up := Text.Upper(raw.GetOr(""));
    var matches := match MatchAll(up) case Some(m) => m case None => [];
    var joined := Text.Concat(matches);
    MatchAllIsFindAll(up);
    Backend.FilteredFacts(up);
    joined[..if |joined| < MaxResidues then |joined| else MaxResidues]
  }

  /** Client and server clean every input identically. */
  lemma CleanSequenceAgrees(raw: Option<string>)
    ensures CleanSequence(raw) == Backend.CleanSequence(raw)
  {
    MatchAllIsFindAll(Text.Upper(raw.GetOr("")));
  }

  // ---------- the index-start field ----------

  /** The characters `parseInt` skips at the start: ECMAScript WhiteSpace and LineTerminator. */
  predicate IsJsSpace(c: char) {
    c in {'\t', '\n', '\U{B}', '\U{C}', '\r', ' ', '\U{A0}', '\U{1680}', '\U{2028}', '\U{2029}',
          '\U{202F}', '\U{205F}', '\U{3000}', '\U{FEFF}'}
    || '\U{2000}' <= c <= '\U{200A}'
  }

  function TrimStart(s: string): (t: string)
    ensures t == [] || !IsJsSpace(t[0])
  {
    if s != [] && IsJsSpace(s[0]) then TrimStart(s[1..]) else s
  }

  /** The longest prefix of decimal digits. */
  function DigitPrefix(s: string): (d: string)
    ensures Decimal.AllDigits(d) && |d| <= |s| && d == s[..|d|]
    ensures Decimal.AllDigits(s) ==> d == s
  {
    if s != [] && Decimal.IsDigit(s[0]) then [s[0]] + DigitPrefix(s[1..]) else []
  }

  /** `parseInt(s, 10)`: None stands for NaN. The value is kept exact. */
  function ParseInt10(s: string): (v: Option<int>)
  {
    var t := TrimStart(s);
    var negative := t != [] && t[0] == '-';
    var body := if t != [] && (t[0] == '-' || t[0] == '+') then t[1..] else t;
    var z := DigitPrefix(body);
    if z == [] then None
    else
      var magnitude: int := Decimal.DigitsValue(z);
      Some(if negative then -magnitude else magnitude)
  }

  /** No character `String` writes for an integer is one `parseInt` skips. */
  lemma TrimStartOfDecimal(n: int)
    ensures TrimStart(Decimal.IntToDecimal(n)) == Decimal.IntToDecimal(n)
  {
    var s := Decimal.IntToDecimal(n);
    assert s[0] == '-' || Decimal.IsDigit(s[0]);
    assert !IsJsSpace(s[0]);
  }

  /** `parseInt` reads back what `String` writes for an integer. */
  lemma ParseInt10OfDecimal(n: int)
    ensures ParseInt10(Decimal.IntToDecimal(n)) == Some(n)
  {
    TrimStartOfDecimal(n);
    var m := if n < 0 then -n else n;
    var d := Decimal.NatToDecimal(m);
    Decimal.DigitsValueOfNatToDecimal(m);
    var s := Decimal.IntToDecimal(n);
    var body := if n < 0 then s[1..] else s;
    assert body == d;
    assert DigitPrefix(body) == d;
  }

  /** `Math.max(1, Math.min(1_000_000_000, v))`. */
  function ClampIndex(v: int): (r: int)
    ensures 1 <= r <= MaxIndexStart
    ensures 1 <= v <= MaxIndexStart ==> r == v
    ensures v < 1 ==> r == 1
    ensures v > MaxIndexStart ==> r == MaxIndexStart
  {
    var upper := if MaxIndexStart < v then MaxIndexStart else v;
    if 1 > upper then 1 else upper
  }

  /** The index start `onIndexChange` stores for a field value: 1 when `parseInt` gives NaN, else the clamped number. */
  function IndexStartFor(value: string): (r: int)
    ensures 1 <= r <= MaxIndexStart
    ensures ParseInt10(value).None? ==> r == 1
    ensures ParseInt10(value).Some? ==> r == ClampIndex(ParseInt10(value).value)
  {
    match ParseInt10(value)
    case None => 1
    case Some(v) => ClampIndex(v)
  }

  /** Re-reading the field's displayed value leaves every reachable index start unchanged. */
  lemma IndexFieldRoundTrip(k: int)
    requires 1 <= k <= MaxIndexStart
    ensures IndexStartFor(Decimal.IntToDecimal(k)) == k
  {
    ParseInt10OfDecimal(k);
  }

  // ---------- counts and CSS classes ----------

  /** `states.filter((s) => s === target).length`. */
  function CountOf(states: seq<string>, target: string): (k: nat)
    ensures k <= |states|
  {
    if states == [] then 0 else (if states[0] == target then 1 else 0) + CountOf(states[1..], target)
  }

  lemma {:induction false} CountsBounded(states: seq<string>)
    ensures CountOf(states, "H") + CountOf(states, "E") + CountOf(states, "C") <= |states|
  {
    if states != [] {
      CountsBounded(states[1..]);
    }
  }

  datatype StateCounts = StateCounts(h: nat, e: nat, c: nat, n: nat)

  /** `counts`: the H, E and C tallies, and the percentage denominator `sequence.length || 1`. */
  function Counts(states: seq<string>, sequence: string): (r: StateCounts)
    ensures r.h == CountOf(states, "H") && r.e == CountOf(states, "E") && r.c == CountOf(states, "C")
    ensures r.h + r.e + r.c <= |states|
    ensures r.n >= 1
    ensures |sequence| > 0 ==> r.n == |sequence|
    ensures |sequence| == 0 ==> r.n == 1
  {
    CountsBounded(states);
    StateCounts(CountOf(states, "H"), CountOf(states, "E"), CountOf(states, "C"),
                if |sequence| != 0 then |sequence| else 1)
  }

  /** `stateClass`: the CSS class of a residue cell. */
  function StateClass(s: string): (c: string)
    ensures c in {"state-H", "state-E", "state-C", "state-N"}
    ensures s in {"H", "E", "C"} ==> c == "state-" + s
    ensures s !in {"H", "E", "C"} ==> c == "state-N"
  {
    if s == "H" then "state-H" else if s == "E" then "state-E" else if s == "C" then "state-C" else "state-N"
  }

  /** The classes of the cells, one per state. */
  function CellClasses(states: seq<string>): (r: seq<string>)
    ensures |r| == |states|
  {
    if states == [] then [] else [StateClass(states[0])] + CellClasses(states[1..])
  }

  /** The cells shown as helix, strand and coil are exactly the ones counted; the rest are shown as "state-N". */
  lemma {:induction false} CellClassesMatchCounts(states: seq<string>, sequence: string)
    ensures CountOf(CellClasses(states), "state-H") == Counts(states, sequence).h
    ensures CountOf(CellClasses(states), "state-E") == Counts(states, sequence).e
    ensures CountOf(CellClasses(states), "state-C") == Counts(states, sequence).c
    ensures CountOf(CellClasses(states), "state-N")
      == |states| - Counts(states, sequence).h - Counts(states, sequence).e - Counts(states, sequence).c
  {
    if states != [] {
      CellClassesMatchCounts(states[1..], sequence);
      assert CellClasses(states)[1..] == CellClasses(states[1..]);
      CountsBounded(states);
    }
  }

  // ---------- CSV export ----------

  const CsvHeader: string := "Index,Residue,State\n"

  function Min(a: nat, b: nat): (m: nat)
    ensures m <= a && m <= b && (m == a || m == b)
  {
    if a < b then a else b
  }

  /** The data lines of `downloadCSV`: ``${indexStart + i},${sequence[i]},${states[i]}`` for the aligned prefix. */
  function CsvLines(sequence: string, states: seq<string>, indexStart: int): (lines: seq<string>)
    ensures |lines| == Min(|sequence|, |states|)
  {
    var n := Min(|sequence|, |states|);
    seq(n, i requires 0 <= i < n => Decimal.IntToDecimal(indexStart + i) + "," + [sequence[i]] + "," + states[i])
  }

  /** The file text: the header, then the lines joined with "\n". */
  function CsvText(sequence: string, states: seq<string>, indexStart: int): (text: string) {
    CsvHeader + Text.Join(CsvLines(sequence, states, indexStart), '\n')
  }

  lemma DecimalHasNoSeparator(n: int, sep: char)
    requires sep == '\n' || sep == ','
    ensures sep !in Decimal.IntToDecimal(n)
  {
    var s := Decimal.IntToDecimal(n);
    forall k | 0 <= k < |s| ensures s[k] != sep {
      if k > 0 {
        assert n < 0 ==> s[k] == s[1..][k - 1];
      }
    }
  }

  /**
   * Splitting the file at "\n" gives the header and exactly one row per aligned residue
   * (a single empty row after the header when there are none), provided no residue or
   * state contains a newline.
   */
  lemma CsvRows(sequence: string, states: seq<string>, indexStart: int)
    requires '\n' !in sequence
    requires forall k :: 0 <= k < |states| ==> '\n' !in states[k]
    ensures var lines := CsvLines(sequence, states, indexStart);
      Text.Split(CsvText(sequence, states, indexStart), '\n')
        == ["Index,Residue,State"] + (if lines == [] then [""] else lines)
  {
    var lines := CsvLines(sequence, states, indexStart);
    var header := "Index,Residue,State";
    assert CsvHeader == header + ['\n'];
    assert CsvText(sequence, states, indexStart) == header + ['\n'] + Text.Join(lines, '\n');
    Text.SplitAfterPiece(header, '\n', Text.Join(lines, '\n'));
    if lines != [] {
      forall k | 0 <= k < |lines| ensures '\n' !in lines[k] {
        DecimalHasNoSeparator(indexStart + k, '\n');
        assert sequence[k] in sequence;
        assert lines[k] == Decimal.IntToDecimal(indexStart + k) + "," + [sequence[k]] + "," + states[k];
      }
      Text.SplitJoin(lines, '\n');
    }
  }

  /** Line i splits at ',' into the index, the residue and the state, and its index reads back as indexStart + i. */
  lemma CsvLineFields(sequence: string, states: seq<string>, indexStart: int, i: nat)
    requires i < |sequence| && i < |states|
    requires sequence[i] != ',' && ',' !in states[i]
    ensures var fields := Text.Split(CsvLines(sequence, states, indexStart)[i], ',');
      && fields == [Decimal.IntToDecimal(indexStart + i), [sequence[i]], states[i]]
      && ParseInt10(fields[0]) == Some(indexStart + i)
  {
    var parts := [Decimal.IntToDecimal(indexStart + i), [sequence[i]], states[i]];
    DecimalHasNoSeparator(indexStart + i, ',');
    assert parts[1..][1..] == [states[i]];
    assert Text.Join(parts[1..], ',') == [sequence[i]] + [','] + states[i];
    assert CsvLines(sequence, states, indexStart)[i] == Text.Join(parts, ',');
    Text.SplitJoin(parts, ',');
    ParseInt10OfDecimal(indexStart + i);
  }

  // ---------- grid ticks ----------

  /** Being a multiple of 10 does not depend on the sign. */
  lemma NegatedMultipleOfTen(a: int)
    ensures (-a) % 10 == 0 <==> a % 10 == 0
  {
    if a % 10 == 0 {
      assert a == 10 * (a / 10);
      assert -a == 10 * (-(a / 10));
    }
    if (-a) % 10 == 0 {
      assert -a == 10 * ((-a) / 10);
      assert a == 10 * (-((-a) / 10));
    }
  }

  /** JavaScript's `idx % 10`: the remainder takes the sign of the dividend. */
  function JsRemainder10(a: int): (r: int)
    ensures -10 < r < 10
    ensures r == 0 <==> a % 10 == 0
    ensures a >= 0 ==> r == a % 10
  {
    NegatedMultipleOfTen(a);
    var m := (if a < 0 then -a else a) % 10;
    if a < 0 then -m else m
  }

  /** The tick above a cell: the index on multiples of 10, a middle dot elsewhere. */
  function Tick(idx: int): (shown: string) {
    if JsRemainder10(idx) == 0 then Decimal.IntToDecimal(idx) else "·"
  }

  /** A tick shows a number exactly on multiples of 10, and that number is the index. */
  lemma TickShowsMultiplesOfTen(idx: int)
    ensures Tick(idx) != "·" <==> idx % 10 == 0
    ensures idx % 10 == 0 ==> ParseInt10(Tick(idx)) == Some(idx)
  {
    var s := Decimal.IntToDecimal(idx);
    assert s[0] == '-' || Decimal.IsDigit(s[0]);
    ParseInt10OfDecimal(idx);
  }

  // ---------- the component ----------

  /** How the prediction call ended. */
  datatype Reply =
    | Answered(response: Backend.PredictResponse)   // res.ok: the parsed JSON body
    | Refused(text: string)                          // !res.ok: the response text becomes the error message
    | FetchFailed(message: string)                   // fetch itself rejected

  /** `e.message || "Prediction failed"`. */
  function ErrorMessage(message: string): (m: string)
    ensures m != ""
    ensures message != "" ==> m == message
    ensures message == "" ==> m == FallbackError
  {
    if message == "" then FallbackError else message
  }

  class App {
    var sequence: string
    var states: seq<string>
    var indexStart: int
    var isLoading: bool
    var error: string

    /** The start index the component holds is always one the server accepts. */
    ghost predicate Valid()
      reads this
    {
      1 <= indexStart
    }

    /** The initial `useState` values. */
    constructor ()
      ensures Valid()
      ensures sequence == DummySeq && states == GenerateDummyStates(|DummySeq|) && states == []
      ensures indexStart == 1 && !isLoading && error == ""
    {
      sequence := DummySeq;
      states := GenerateDummyStates(|DummySeq|);
      indexStart := 1;
      isLoading := false;
      error := "";
    }

    /** `onSeqChange`: store the cleaned text, reset the states to placeholders, clear the error. */
    method OnSeqChange(value: Option<string>)
      modifies this`sequence, this`states, this`error
      ensures sequence == CleanSequence(value)
      ensures states == GenerateDummyStates(|sequence|)
      ensures |states| == |sequence| && forall i :: 0 <= i < |states| ==> states[i] == "N"
      ensures error == ""
    {
      var cleaned := CleanSequence(value);
      sequence := cleaned;
      states := GenerateDummyStates(|cleaned|);
      error := "";
    }

    /** `onIndexChange`: parse the field and clamp it into [1, 1e9]. */
    method OnIndexChange(value: string)
      modifies this`indexStart
      ensures Valid()
      ensures indexStart == IndexStartFor(value)
      ensures 1 <= indexStart <= MaxIndexStart
    {
      var v := ParseInt10(value);
      if v.None? {
        indexStart := 1;
        return;
      }
      indexStart := ClampIndex(v.value);
    }

    /**
     * The JSON body `runPredict` posts: its start index always passes the server's field
     * validation, so only an empty text area is refused there.
     */
    function RequestBody(): (b: Backend.RequestBody)
      reads this
      requires Valid()
      ensures b.sequence == Some(sequence) && b.indexStart == Some(indexStart)
      ensures Backend.IndexStartFieldOk(b)
      ensures Backend.ParseRequest(b).Ok? <==> sequence != []
      ensures sequence != [] ==> Backend.ParseRequest(b) == Ok(Backend.PredictRequest(sequence, indexStart))
    {
      Backend.RequestBody(Some(sequence), Some(indexStart))
    }

    /** `runPredict` once the call has settled: take the server's answer, or record the error. */
    method RunPredict(reply: Reply)
      modifies this
      ensures old(Valid()) && (reply.Answered? ==> 1 <= reply.response.indexStart) ==> Valid()
      ensures !isLoading
      ensures reply.Answered? ==>
        && sequence == reply.response.sequence && states == reply.response.states
        && indexStart == reply.response.indexStart && error == ""
      ensures reply.Refused? ==>
        && sequence == old(sequence) && states == old(states) && indexStart == old(indexStart)
        && error == ErrorMessage(reply.text)
      ensures reply.FetchFailed? ==>
        && sequence == old(sequence) && states == old(states) && indexStart == old(indexStart)
        && error == ErrorMessage(reply.message)
    {
      isLoading := true;
      error := "";
      match reply {
        case Answered(data) =>
          sequence := data.sequence;
          states := data.states;
          indexStart := data.indexStart;
        case Refused(text) =>
          error := ErrorMessage(text);
        case FetchFailed(message) =>
          error := ErrorMessage(message);
      }
      isLoading := false;
    }
  }

  /**
   * Editing the text area and pressing Predict, with the server answering in process:
   * `render` is the server framework's rendering of an error response as text.
   * A non-empty cleaned sequence that the model labels in full comes back unchanged,
   * with one state per residue; any other outcome leaves the cleaned text and its
   * placeholder states and shows an error.
   */
  method EditAndPredict(app: App, raw: Option<string>, model: Backend.Predictor, render: Backend.ApiError -> string)
    requires app.Valid()
    modifies app
    ensures app.Valid() && !app.isLoading
    ensures app.sequence == CleanSequence(raw) && app.indexStart == old(app.indexStart)
    ensures var s := CleanSequence(raw);
      s != [] && model(s).Some? && |model(s).value| == |s| ==>
        && app.states == model(s).value && |app.states| == |app.sequence| && app.error == ""
    ensures var s := CleanSequence(raw);
      !(s != [] && model(s).Some? && |model(s).value| == |s|) ==>
        && app.states == GenerateDummyStates(|s|) && app.error != ""
  {
    app.OnSeqChange(raw);
    var body := app.RequestBody();
    var answer := Backend.PostPredict(body, model);
    var reply := if answer.Ok? then Answered(answer.value) else Refused(render(answer.error));
    ghost var s := CleanSequence(raw);
    if s != [] && model(s).Some? && |model(s).value| == |s| {
      ServerEchoesClientSequence(raw, app.indexStart, model);
      assert answer == Ok(Backend.PredictResponse(s, app.indexStart, model(s).value));
    } else {
      ServedFailure(raw, app.indexStart, model);
      assert answer.Err?;
    }
    app.RunPredict(reply);
  }

  // ---------- client and server together ----------

  /**
   * The text the client holds, once cleaned, is echoed unchanged by the server when it is
   * not empty and the model labels every residue.
   */
  lemma ServerEchoesClientSequence(raw: Option<string>, indexStart: int, model: Backend.Predictor)
    requires 1 <= indexStart
    requires CleanSequence(raw) != []
    requires model(CleanSequence(raw)).Some? && |model(CleanSequence(raw)).value| == |CleanSequence(raw)|
    ensures var s := CleanSequence(raw);
      Backend.PostPredict(Backend.RequestBody(Some(s), Some(indexStart)), model)
        == Ok(Backend.PredictResponse(s, indexStart, model(s).value))
  {
    CleanSequenceAgrees(raw);
    Backend.CleanSequenceIdempotent(raw);
  }

  /** Any other cleaned text is answered with an error. */
  lemma ServedFailure(raw: Option<string>, indexStart: int, model: Backend.Predictor)
    requires 1 <= indexStart
    requires var s := CleanSequence(raw); !(s != [] && model(s).Some? && |model(s).value| == |s|)
    ensures Backend.PostPredict(Backend.RequestBody(Some(CleanSequence(raw)), Some(indexStart)), model).Err?
  {
    CleanSequenceAgrees(raw);
    Backend.CleanSequenceIdempotent(raw);
  }

  /** The initial, empty text area is refused by the server's field validation (422), before cleaning. */
  lemma EmptySequenceIsRefused(indexStart: int, model: Backend.Predictor)
    ensures var r := Backend.PostPredict(Backend.RequestBody(Some(DummySeq), Some(indexStart)), model);
      r.Err? && r.error.Status() == 422
  {
  }
}
