/**
 * The meCoffee data update coordinator of custom_components/mecoffee/coordinator.py:
 * three nullable telemetry fields, their getters, the snapshot handed to listeners, and
 * the frame handler that overwrites at most one field per frame.
 */
module Coordinator {
  import opened Wrappers
  import opened Protocol
  import Text
  import Numbers

  /** The three fields at one moment; `None` is a metric not decoded since start-up. */
  datatype Telemetry = Telemetry(temperature: Option<real>, power: Option<real>, shotDuration: Option<real>)

  /** The state of a freshly built coordinator. */
  const Unknown := Telemetry(None, None, None)

  function Field(s: Telemetry, m: Metric): Option<real> {
    match m
    case Temperature => s.temperature
    case Power => s.power
    case ShotDuration => s.shotDuration
  }

  /** Overwrite the field of the update's metric; the other two stay as they were. */
  function Apply(s: Telemetry, u: Update): (r: Telemetry)
    ensures Field(r, u.metric) == Some(u.value)
    ensures forall m: Metric :: m != u.metric ==> Field(r, m) == Field(s, m)
  {
    match u.metric
    case Temperature => s.(temperature := Some(u.value))
    case Power => s.(power := Some(u.value))
    case ShotDuration => s.(shotDuration := Some(u.value))
  }

  /**
   * The fields after a frame with outcome `o`: only a decoded update writes, and it writes
   * one field; the others keep their values.
   */
  function Step(s: Telemetry, o: Outcome): (r: Telemetry)
    ensures forall m: Metric :: Field(r, m) == if Written(o, m).Some? then Written(o, m) else Field(s, m)
    ensures forall m: Metric, n: Metric :: Field(r, m) != Field(s, m) && Field(r, n) != Field(s, n) ==> m == n
  {
    if o.Handled? && o.update.Some? then Apply(s, o.update.value) else s
  }

  /**
   * Whether the handler reaches its `async_set_updated_data` call: it does unless it
   * returned early on a blank frame or an exception was raised.
   */
  predicate Notifies(o: Outcome) {
    o.Handled?
  }

  /** The value an outcome writes into the field of `m`, if it writes one. */
  function Written(o: Outcome, m: Metric): Option<real> {
    if o.Handled? && o.update.Some? && o.update.value.metric == m then Some(o.update.value.value) else None
  }

  /** The fields after frames with these outcomes, in order, starting from a fresh coordinator. */
  function Replay(outcomes: seq<Outcome>): Telemetry {
    if outcomes == [] then Unknown
    else Step(Replay(outcomes[..|outcomes| - 1]), outcomes[|outcomes| - 1])
  }

  /** How many of the frames led to a data-updated notification. */
  function NotifyCount(outcomes: seq<Outcome>): nat {
    if outcomes == [] then 0
    else NotifyCount(outcomes[..|outcomes| - 1]) + if Notifies(outcomes[|outcomes| - 1]) then 1 else 0
  }

  lemma ReplaySnoc(outcomes: seq<Outcome>, o: Outcome)
    ensures Replay(outcomes + [o]) == Step(Replay(outcomes), o)
    ensures NotifyCount(outcomes + [o]) == NotifyCount(outcomes) + if Notifies(o) then 1 else 0
  {
  }

  /**
   * Each field holds the value of the most recent frame that decoded to an update of its
   * metric: later frames that do not write it leave it alone.
   */
  lemma {:induction false} ReplayLatest(outcomes: seq<Outcome>, m: Metric, i: nat)
    requires i < |outcomes| && Written(outcomes[i], m).Some?
    requires forall j :: i < j < |outcomes| ==> Written(outcomes[j], m).None?
    ensures Field(Replay(outcomes), m) == Written(outcomes[i], m)
  {
    var last := |outcomes| - 1;
    var prefix := outcomes[..last];
    if i < last {
      assert forall j :: i < j < |prefix| ==> prefix[j] == outcomes[j];
      ReplayLatest(prefix, m, i);
    }
  }

  /** A field stays `None` until some frame decodes to an update of its metric. */
  lemma {:induction false} ReplayNever(outcomes: seq<Outcome>, m: Metric)
    requires forall j :: 0 <= j < |outcomes| ==> Written(outcomes[j], m).None?
    ensures Field(Replay(outcomes), m) == None
  {
    if outcomes != [] {
      var last := |outcomes| - 1;
      var prefix := outcomes[..last];
      assert forall j :: 0 <= j < last ==> prefix[j] == outcomes[j];
      ReplayNever(prefix, m);
    }
  }

  /**
   * A frame that decodes to no update (an empty, undecodable, unparsable, short or
   * unknown frame) leaves every field as it was.
   */
  lemma NoUpdateNoChange(outcomes: seq<Outcome>, o: Outcome)
    requires o.Handled? ==> o.update.None?
    ensures Replay(outcomes + [o]) == Replay(outcomes)
  {
  }

  /** Handling the same frame twice leaves the fields as handling it once. */
  lemma HandleTwice(outcomes: seq<Outcome>, o: Outcome)
    ensures Replay(outcomes + [o, o]) == Replay(outcomes + [o])
  {
    assert outcomes + [o, o] == (outcomes + [o]) + [o];
    ReplaySnoc(outcomes + [o], o);
    ReplaySnoc(outcomes, o);
  }

  /**
   * What one frame with tag `m` does to the fields, read off the frame's tokens: too few
   * tokens leaves every field alone but notifies; an unparsable value is a caught
   * `ValueError` that changes nothing and does not notify; otherwise the field of `m`
   * becomes the converted value, the other two fields stay, and listeners are notified.
   */
  lemma FrameEffect(s: Telemetry, text: string, m: Metric)
    requires Text.Tokenize(text) != [] && Text.Tokenize(text)[0] == Tag(m)
    ensures var parts := Text.Tokenize(text);
            |parts| < MinTokens(m) ==>
              Step(s, DecodeFrame(Some(text))) == s && Notifies(DecodeFrame(Some(text)))
    ensures var parts := Text.Tokenize(text);
            |parts| >= MinTokens(m) && Numbers.ParseNum(parts[FieldIndex(m)]).None? ==>
              Step(s, DecodeFrame(Some(text))) == s && !Notifies(DecodeFrame(Some(text)))
    ensures var parts := Text.Tokenize(text);
            |parts| >= MinTokens(m) && Numbers.ParseNum(parts[FieldIndex(m)]).Some? ==>
              && Field(Step(s, DecodeFrame(Some(text))), m)
                 == Some(Convert(m, Numbers.ParseNum(parts[FieldIndex(m)]).value))
              && (forall n: Metric :: n != m ==> Field(Step(s, DecodeFrame(Some(text))), n) == Field(s, n))
              && Notifies(DecodeFrame(Some(text)))
  {
    DecodeFrameText(text);
    DecodeTokensByTag(Text.Tokenize(text));
  }

  /** A frame whose first token is none of the three tags changes nothing, yet notifies. */
  lemma UnknownTagEffect(s: Telemetry, text: string)
    requires Text.Tokenize(text) != []
    requires forall m: Metric :: Text.Tokenize(text)[0] != Tag(m)
    ensures Step(s, DecodeFrame(Some(text))) == s && Notifies(DecodeFrame(Some(text)))
  {
    DecodeFrameText(text);
    DecodeTokensByTag(Text.Tokenize(text));
  }

  /**
   * A blank frame returns early and bytes that are not UTF-8 raise inside the `try`: either
   * way nothing changes and nobody is notified.
   */
  lemma SilentFrames(s: Telemetry, text: string)
    requires Text.AllSpace(text)
    ensures Step(s, DecodeFrame(Some(text))) == s && !Notifies(DecodeFrame(Some(text)))
    ensures Step(s, DecodeFrame(None)) == s && !Notifies(DecodeFrame(None))
  {
  }

  lemma ReplayThree(o1: Outcome, o2: Outcome, o3: Outcome)
    ensures Replay([o1, o2, o3]) == Step(Step(Step(Unknown, o1), o2), o3)
  {
    ReplaySnoc([], o1);
    assert [] + [o1] == [o1];
    ReplaySnoc([o1], o2);
    assert [o1] + [o2] == [o1, o2];
    ReplaySnoc([o1, o2], o3);
    assert [o1, o2] + [o3] == [o1, o2, o3];
  }

  /** The sample temperature frame `tmp 1200 9300 9250 0 OK` reads 92.5 °C. */
  lemma SampleTemperature()
    ensures DecodeFrame(Some(Text.Join(["tmp", "1200", "9300", "9250", "0", "OK"])))
         == Handled(Some(Update(Temperature, 92.5)))
  {
    assert Numbers.ShowInt(1200) == "1200" && Numbers.ShowInt(9300) == "9300";
    assert Numbers.ShowInt(9250) == "9250" && Numbers.ShowInt(0) == "0";
    TemperatureFrame(1200, 9300, 9250, 0);
  }

  /** The sample PID frame `pid 30000 1500 200 1 OK` reads its first field, 30000 / 655.36 %. */
  lemma SamplePower()
    ensures DecodeFrame(Some(Text.Join(["pid", "30000", "1500", "200", "1", "OK"])))
         == Handled(Some(Update(Power, 30000.0 / 655.36)))
  {
    assert Numbers.ShowInt(30000) == "30000" && Numbers.ShowInt(1500) == "1500";
    assert Numbers.ShowInt(200) == "200" && Numbers.ShowInt(1) == "1";
    PowerFrame(30000, 1500, 200, 1);
  }

  /** The sample shot frame `sht 5000 18500 OK` reads 18.5 s. */
  lemma SampleShot()
    ensures DecodeFrame(Some(Text.Join(["sht", "5000", "18500", "OK"]))) == Handled(Some(Update(ShotDuration, 18.5)))
  {
    assert Numbers.ShowInt(5000) == "5000" && Numbers.ShowInt(18500) == "18500";
    ShotFrame(5000, 18500);
  }

  /** The three sample frames of the protocol, one per metric, handled in turn. */
  lemma SampleSession()
    ensures Replay([DecodeFrame(Some(Text.Join(["tmp", "1200", "9300", "9250", "0", "OK"]))),
                    DecodeFrame(Some(Text.Join(["pid", "30000", "1500", "200", "1", "OK"]))),
                    DecodeFrame(Some(Text.Join(["sht", "5000", "18500", "OK"])))])
         == Telemetry(Some(92.5), Some(30000.0 / 655.36), Some(18.5))
  {
    SampleTemperature();
    SamplePower();
    SampleShot();
    ReplayThree(DecodeFrame(Some(Text.Join(["tmp", "1200", "9300", "9250", "0", "OK"]))),
                DecodeFrame(Some(Text.Join(["pid", "30000", "1500", "200", "1", "OK"]))),
                DecodeFrame(Some(Text.Join(["sht", "5000", "18500", "OK"]))));
  }

  /** A four-token `pid` frame writes nothing: index 1 exists, but the frame is one token short. */
  lemma SampleShortPower()
    ensures DecodeFrame(Some(Text.Join(["pid", "30000", "1500", "200"]))) == Handled(None)
  {
    var parts := ["pid", "30000", "1500", "200"];
    assert Text.IsWord("pid") && Text.IsWord("30000") && Text.IsWord("1500") && Text.IsWord("200");
    assert DecodeTokens(parts) == Handled(None);
    DecodeJoined(parts);
  }

  /** A frame with an unknown tag writes nothing. */
  lemma SampleUnknownTag()
    ensures DecodeFrame(Some(Text.Join(["foo", "bar"]))) == Handled(None)
  {
    var parts := ["foo", "bar"];
    assert Text.IsWord("foo") && Text.IsWord("bar");
    assert DecodeTokens(parts) == Handled(None);
    DecodeJoined(parts);
  }

  /** A temperature token that is not a number is a caught `ValueError`. */
  lemma SampleBadNumber()
    ensures DecodeFrame(Some(Text.Join(["tmp", "1200", "9300", "hot"]))) == Failed(ParseError)
  {
    var parts := ["tmp", "1200", "9300", "hot"];
    assert Text.IsWord("tmp") && Text.IsWord("1200") && Text.IsWord("9300") && Text.IsWord("hot");
    DecodeJoined(parts);
    assert DecodeTokens(parts) == Failed(ParseError);
  }

  /**
   * The coordinator object. The handler assigns the fields in place; `history` records,
   * for the proof only, the outcome of every frame handed to it.
   */
  class Store {
    var temperature: Option<real>
    var power: Option<real>
    var shotDuration: Option<real>
    /** How many times the handler has called `async_set_updated_data`. */
    var notifications: nat
    ghost var history: seq<Outcome>

    /** The fields and the notification count are those the history of frames produces. */
    ghost predicate Valid()
      reads this
    {
      Telemetry(temperature, power, shotDuration) == Replay(history) && notifications == NotifyCount(history)
    }

    constructor ()
      ensures Valid() && history == []
      ensures temperature == None && power == None && shotDuration == None && notifications == 0
    {
      temperature, power, shotDuration := None, None, None;
      notifications := 0;
      history := [];
    }

    /** The `temperature` property: the latest decoded temperature in °C. */
    function Temperature(): (t: Option<real>)
      reads this
      requires Valid()
      ensures t == Field(Replay(history), Metric.Temperature)
    {
      temperature
    }

    /** The `power` property: the latest decoded heater power in percent. */
    function Power(): (p: Option<real>)
      reads this
      requires Valid()
      ensures p == Field(Replay(history), Metric.Power)
    {
      power
    }

    /** The `shot_duration` property: the latest decoded shot duration in seconds. */
    function ShotDuration(): (d: Option<real>)
      reads this
      requires Valid()
      ensures d == Field(Replay(history), Metric.ShotDuration)
    {
      shotDuration
    }

    /** `_async_update_data`: the three fields together, as the getters report them. */
    function Snapshot(): (s: Telemetry)
      reads this
      requires Valid()
      ensures s == Replay(history)
      ensures s.temperature == Temperature() && s.power == Power() && s.shotDuration == ShotDuration()
    {
      Telemetry(temperature, power, shotDuration)
    }

    /**
     * `handle_bluetooth_data`. `data` is the frame after UTF-8 decoding, `None` when the
     * bytes are not valid UTF-8. Exceptions are caught before any field is written, so a
     * failed frame changes nothing and notifies nobody.
     */
    method HandleFrame(data: Option<string>)
      requires Valid()
      modifies this
      ensures Valid()
      ensures history == old(history) + [DecodeFrame(data)]
      ensures Snapshot() == Step(old(Snapshot()), DecodeFrame(data))
      ensures notifications == old(notifications) + if Notifies(DecodeFrame(data)) then 1 else 0
    {
      ReplaySnoc(history, DecodeFrame(data));
      history := history + [DecodeFrame(data)];
      if data.None? {
        return;
      }
      var message := Text.Strip(data.value);
      var parts := Text.Tokenize(message);
      if parts == [] {
        return;
      }
      Dispatch(parts);
    }

    /**
     * The tag dispatch of the handler on the tokens of a frame: a parse failure returns
     * before any field is written; otherwise at most one field is written and listeners
     * are notified.
     */
    method Dispatch(parts: seq<string>)
      requires parts != []
      modifies this
      ensures Telemetry(temperature, power, shotDuration)
           == Step(old(Telemetry(temperature, power, shotDuration)), DecodeTokens(parts))
      ensures notifications == old(notifications) + if Notifies(DecodeTokens(parts)) then 1 else 0
      ensures history == old(history)
    {
      if parts[0] == TEMPERATURE_TAG && |parts| >= 4 {
        var raw := Numbers.ParseNum(parts[3]);
        if raw.None? {
          return;
        }
        temperature := Some(Convert(Metric.Temperature, raw.value));
      } else if parts[0] == PID_TAG && |parts| >= 5 {
        var raw := Numbers.ParseNum(parts[1]);
        if raw.None? {
          return;
        }
        power := Some(Convert(Metric.Power, raw.value));
      } else if parts[0] == SHOT_TAG && |parts| >= 3 {
        var raw := Numbers.ParseNum(parts[2]);
        if raw.None? {
          return;
        }
        shotDuration := Some(Convert(Metric.ShotDuration, raw.value));
      }
      notifications := notifications + 1;
    }
  }

  /** A coordinator fed the three sample frames reports all three readings. */
  method SampleStoreSession() returns (s: Telemetry)
    ensures s == Telemetry(Some(92.5), Some(30000.0 / 655.36), Some(18.5))
  {
    var store := new Store();
    store.HandleFrame(Some(Text.Join(["tmp", "1200", "9300", "9250", "0", "OK"])));
    store.HandleFrame(Some(Text.Join(["pid", "30000", "1500", "200", "1", "OK"])));
    store.HandleFrame(Some(Text.Join(["sht", "5000", "18500", "OK"])));
    SampleSession();
    s := store.Snapshot();
  }
}
