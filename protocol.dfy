/**
 * The meCoffee line protocol as the frame handler of
 * custom_components/mecoffee/coordinator.py decodes it: one line of
 * whitespace-separated tokens whose first token is the message tag. The handler
 * looks only at the tag, the token count and the one token it reads (index 3 of a
 * `tmp` frame, 1 of a `pid` frame, 2 of an `sht` frame); the other tokens, named
 * below after the device's format, are never checked.
 *
 *   tmp <uptime> <setpoint> <temperature in centidegrees> <aux> OK
 *   pid <power raw> <i> <d> <active> OK
 *   sht <uptime> <duration in ms> OK
 */
module Protocol {
  import opened Wrappers
  import opened Text
  import opened Numbers

  const TEMPERATURE_TAG := "tmp"
  const PID_TAG := "pid"
  const SHOT_TAG := "sht"

  /** The three decoded telemetry values. */
  datatype Metric = Temperature | Power | ShotDuration

  /** A decoded value for exactly one metric. */
  datatype Update = Update(metric: Metric, value: real)

  /** The exceptions the handler catches: `UnicodeDecodeError` and `ValueError` from `float`. */
  datatype Failure = DecodeError | ParseError

  /**
   * What one frame amounts to: the early return on a frame without tokens, a caught
   * exception, or a completed dispatch that may have produced an update.
   */
  datatype Outcome = EmptyFrame | Failed(failure: Failure) | Handled(update: Option<Update>)

  /** The tag each metric's frames start with. */
  function Tag(m: Metric): string {
    match m
    case Temperature => TEMPERATURE_TAG
    case Power => PID_TAG
    case ShotDuration => SHOT_TAG
  }

  /** The fewest tokens (tag included) a frame of the metric must have to be read. */
  function MinTokens(m: Metric): nat {
    match m
    case Temperature => 4
    case Power => 5
    case ShotDuration => 3
  }

  /** The position of the token holding the metric's raw value. */
  function FieldIndex(m: Metric): (i: nat)
    ensures 1 <= i < MinTokens(m)
  {
    match m
    case Temperature => 3
    case Power => 1
    case ShotDuration => 2
  }

  /**
   * From the raw value on the wire to degrees Celsius (the wire carries hundredths of a
   * degree), percent (65536 / 100 raw units per percent) or seconds (the wire carries ms).
   */
  function Convert(m: Metric, raw: real): (v: real)
    ensures m == Temperature ==> v * 100.0 == raw
    ensures m == Power ==> v * 65536.0 == raw * 100.0
    ensures m == ShotDuration ==> v * 1000.0 == raw
    ensures (v < 0.0 <==> raw < 0.0) && (v == 0.0 <==> raw == 0.0)
  {
    match m
    case Temperature => raw * 0.01
    case Power => raw / 655.36
    case ShotDuration => raw / 1000.0
  }

  /** `float(token)` followed by the metric's conversion; a bad literal raises `ValueError`. */
  function Read(m: Metric, token: string): Outcome {
    match ParseNum(token)
    case None => Failed(ParseError)
    case Some(raw) => Handled(Some(Update(m, Convert(m, raw))))
  }

  /** The dispatch on the tag over the tokens of a frame. */
  function DecodeTokens(parts: seq<string>): (o: Outcome)
    ensures o == EmptyFrame <==> parts == []
    ensures o.Failed? ==> o.failure == ParseError
    ensures o.Handled? && o.update.Some? ==>
              parts[0] == Tag(o.update.value.metric) && |parts| >= MinTokens(o.update.value.metric)
  {
    if parts == [] then EmptyFrame
    else if parts[0] == TEMPERATURE_TAG && |parts| >= 4 then Read(Temperature, parts[3])
    else if parts[0] == PID_TAG && |parts| >= 5 then Read(Power, parts[1])
    else if parts[0] == SHOT_TAG && |parts| >= 3 then Read(ShotDuration, parts[2])
    else Handled(None)
  }

  /**
   * One received frame: `data` is the result of UTF-8 decoding the bytes, `None` when
   * they are not valid UTF-8; the text is stripped and split, then dispatched.
   */
  function DecodeFrame(data: Option<string>): (o: Outcome)
    ensures o == Failed(DecodeError) <==> data.None?
    ensures o == EmptyFrame <==> data.Some? && AllSpace(data.value)
  {
    match data
    case None => Failed(DecodeError)
    case Some(text) => DecodeTokens(Tokenize(Strip(text)))
  }

  /** A token list that reaches at least the minimum length of its tag, if it has one. */
  predicate Complete(parts: seq<string>) {
    parts != [] && forall m: Metric :: parts[0] == Tag(m) ==> |parts| >= MinTokens(m)
  }

  lemma TagsDistinct(m: Metric, n: Metric)
    ensures Tag(m) == Tag(n) <==> m == n
  {
  }

  /**
   * The dispatch read as a table: a frame with a metric's tag yields no update while it
   * is shorter than the metric's minimum and otherwise reads exactly the token at the
   * metric's index; any other tag yields no update.
   */
  lemma {:induction false} DecodeTokensByTag(parts: seq<string>)
    requires parts != []
    ensures forall m: Metric :: parts[0] == Tag(m) ==>
              DecodeTokens(parts) == if |parts| < MinTokens(m) then Handled(None) else Read(m, parts[FieldIndex(m)])
    ensures (forall m: Metric :: parts[0] != Tag(m)) ==> DecodeTokens(parts) == Handled(None)
  {
    forall m: Metric | parts[0] == Tag(m)
      ensures DecodeTokens(parts) == if |parts| < MinTokens(m) then Handled(None) else Read(m, parts[FieldIndex(m)])
    {
      TagsDistinct(m, Temperature);
      TagsDistinct(m, Power);
      TagsDistinct(m, ShotDuration);
    }
    if forall m: Metric :: parts[0] != Tag(m) {
      assert parts[0] != Tag(Temperature) && parts[0] != Tag(Power) && parts[0] != Tag(ShotDuration);
    }
  }

  /** Tokens after the ones the dispatch looks at never change the outcome. */
  lemma ExtraTokensIgnored(parts: seq<string>, extra: seq<string>)
    requires Complete(parts)
    ensures DecodeTokens(parts + extra) == DecodeTokens(parts)
  {
    var whole := parts + extra;
    assert whole[0] == parts[0];
    DecodeTokensByTag(parts);
    DecodeTokensByTag(whole);
    forall m: Metric | parts[0] == Tag(m) ensures whole[FieldIndex(m)] == parts[FieldIndex(m)] {
      assert FieldIndex(m) < MinTokens(m);
    }
  }

  /**
   * Text after a frame that is long enough for its tag, separated from it by any
   * whitespace, never changes what the frame decodes to.
   */
  lemma TrailingTextIgnored(text: string, ws: string, more: string)
    requires Complete(Tokenize(text)) && ws != [] && AllSpace(ws)
    ensures DecodeFrame(Some(text + ws + more)) == DecodeFrame(Some(text))
  {
    DecodeFrameText(text + ws + more);
    DecodeFrameText(text);
    TokenizeGap(text, ws, more);
    ExtraTokensIgnored(Tokenize(text), Tokenize(more));
  }

  /** The handler strips before it splits; the result is that of splitting the raw text. */
  lemma DecodeFrameText(text: string)
    ensures DecodeFrame(Some(text)) == DecodeTokens(Tokenize(text))
  {
    TokenizeStrip(text);
  }

  lemma ShowIntIsWord(i: int)
    ensures IsWord(ShowInt(i))
  {
  }

  /** Decoding the canonical frame made of `parts` is the dispatch on `parts`. */
  lemma DecodeJoined(parts: seq<string>)
    requires forall i :: 0 <= i < |parts| ==> IsWord(parts[i])
    ensures DecodeFrame(Some(Join(parts))) == DecodeTokens(parts)
  {
    DecodeFrameText(Join(parts));
    TokenizeJoin(parts);
  }

  lemma FixedWords()
    ensures IsWord(TEMPERATURE_TAG) && IsWord(PID_TAG) && IsWord(SHOT_TAG) && IsWord("OK")
  {
  }

  /**
   * A canonical frame whose tag is that of `m`, with at least the minimum number of tokens
   * and a literal at the metric's index, decodes to that literal's converted value.
   */
  lemma WellFormedFrame(parts: seq<string>, m: Metric, raw: real)
    requires forall i :: 0 <= i < |parts| ==> IsWord(parts[i])
    requires |parts| >= MinTokens(m) && parts[0] == Tag(m)
    requires ParseNum(parts[FieldIndex(m)]) == Some(raw)
    ensures DecodeFrame(Some(Join(parts))) == Handled(Some(Update(m, Convert(m, raw))))
  {
    DecodeJoined(parts);
    DecodeTokensByTag(parts);
  }

  /** The tokens of a frame made of a tag, decimal integers and the closing `OK`. */
  function IntFrame(tag: string, values: seq<int>): (parts: seq<string>)
    ensures |parts| == |values| + 2 && parts[0] == tag
    ensures forall i :: 0 <= i < |values| ==> parts[i + 1] == ShowInt(values[i])
  {
    [tag] + seq(|values|, i requires 0 <= i < |values| => ShowInt(values[i])) + ["OK"]
  }

  lemma IntFrameWords(m: Metric, values: seq<int>)
    ensures forall i :: 0 <= i < |values| + 2 ==> IsWord(IntFrame(Tag(m), values)[i])
  {
    var parts := IntFrame(Tag(m), values);
    FixedWords();
    forall i | 0 <= i < |values| + 2 ensures IsWord(parts[i]) {
      if 0 < i <= |values| {
        ShowIntIsWord(values[i - 1]);
      }
    }
  }

  /**
   * The frame `<tag of m> <v0> <v1> ... OK` with enough integer fields decodes to the
   * converted value of the field at the metric's index.
   */
  lemma IntFrameDecodes(m: Metric, values: seq<int>)
    requires |values| >= FieldIndex(m) && |values| + 2 >= MinTokens(m)
    ensures DecodeFrame(Some(Join(IntFrame(Tag(m), values))))
         == Handled(Some(Update(m, Convert(m, values[FieldIndex(m) - 1] as real))))
  {
    var parts := IntFrame(Tag(m), values);
    IntFrameWords(m, values);
    ParseShowInt(values[FieldIndex(m) - 1]);
    WellFormedFrame(parts, m, values[FieldIndex(m) - 1] as real);
  }

  /** A temperature frame `tmp <uptime> <setpoint> <t> <aux> OK` sets the temperature to t / 100 °C. */
  lemma TemperatureFrame(uptime: int, setpoint: int, t: int, aux: int)
    ensures DecodeFrame(Some(Join([TEMPERATURE_TAG, ShowInt(uptime), ShowInt(setpoint), ShowInt(t), ShowInt(aux), "OK"])))
         == Handled(Some(Update(Temperature, t as real / 100.0)))
  {
    var values := [uptime, setpoint, t, aux];
    assert IntFrame(TEMPERATURE_TAG, values)
        == [TEMPERATURE_TAG, ShowInt(uptime), ShowInt(setpoint), ShowInt(t), ShowInt(aux), "OK"];
    assert values[FieldIndex(Temperature) - 1] == t;
    assert Convert(Temperature, t as real) == t as real / 100.0;
    IntFrameDecodes(Temperature, values);
  }

  /**
   * A PID frame `pid <p> <i> <d> <active> OK` sets the power to p / 655.36 percent: it is
   * the token right after the tag that is read.
   */
  lemma PowerFrame(p: int, i: int, d: int, active: int)
    ensures DecodeFrame(Some(Join([PID_TAG, ShowInt(p), ShowInt(i), ShowInt(d), ShowInt(active), "OK"])))
         == Handled(Some(Update(Power, p as real * 100.0 / 65536.0)))
  {
    var values := [p, i, d, active];
    assert IntFrame(PID_TAG, values) == [PID_TAG, ShowInt(p), ShowInt(i), ShowInt(d), ShowInt(active), "OK"];
    assert values[FieldIndex(Power) - 1] == p;
    assert Convert(Power, p as real) == p as real * 100.0 / 65536.0;
    IntFrameDecodes(Power, values);
  }

  /** A shot frame `sht <uptime> <ms> OK` sets the shot duration to ms / 1000 seconds. */
  lemma ShotFrame(uptime: int, ms: int)
    ensures DecodeFrame(Some(Join([SHOT_TAG, ShowInt(uptime), ShowInt(ms), "OK"])))
         == Handled(Some(Update(ShotDuration, ms as real / 1000.0)))
  {
    var values := [uptime, ms];
    assert IntFrame(SHOT_TAG, values) == [SHOT_TAG, ShowInt(uptime), ShowInt(ms), "OK"];
    assert values[FieldIndex(ShotDuration) - 1] == ms;
    assert Convert(ShotDuration, ms as real) == ms as real / 1000.0;
    IntFrameDecodes(ShotDuration, values);
  }
}
