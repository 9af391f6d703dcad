/**
 * The subtitle-extraction handler `SubtilesSAXParser`: it receives the element-start, element-end
 * and character events of a Final Cut XML timeline export, in document order, and collects one
 * `Subtitle` per `generatoritem` element. Exceptions the Java handler throws become a `Fail`
 * outcome; the fields it changed before throwing stay changed.
 */
module Subtitles {
  import opened Wrappers
  import opened Strings
  import TimeUtils

  /** The `Subtitle` bean: an id and three string fields that start out null. */
  datatype Subtitle = Subtitle(id: nat, startTime: Option<string>, endTime: Option<string>, text: Option<string>)

  /**
   * Why a callback throws: a root element other than `sequence`/`xmeml` (the `SAXParseException`),
   * a frame count or timebase that is not a number (`NumberFormatException`), no timebase seen yet
   * (a null dereference in `new Double(null)`), a zero timebase, or a caption `value` with no
   * subtitle open (a null dereference of `aSubtitle`).
   */
  datatype ParseError = WrongRootElement | BadNumber | MissingTimebase | ZeroTimebase | NullSubtitle

  datatype Outcome = Pass | Fail(error: ParseError)

  // ---------------------------------------------------------------- formatTime

  /** The `(long)` cast of a non-negative quotient: values beyond `Long.MAX_VALUE` saturate. */
  function LongCast(x: nat): (r: TimeUtils.Long)
    ensures x < TimeUtils.TWO_63 ==> r == x
    ensures r <= x && (r < x ==> r == TimeUtils.TWO_63 - 1)
  {
    if x < TimeUtils.TWO_63 then x else TimeUtils.TWO_63 - 1
  }

  /**
   * `formatTime(time)` with the handler's current `timebase`: whole seconds of `frames / timebase`
   * through `convertSecondsInTime`, then a comma and the thousandths of a second, truncated and
   * written without zero-padding.
   */
  function FormatTime(time: string, timebase: Option<string>): (r: Result<string, ParseError>)
    ensures !(time != [] && AllDigits(time)) ==> r == Err(BadNumber)
    ensures time != [] && AllDigits(time) && timebase.None? ==> r == Err(MissingTimebase)
    ensures r.Ok? <==> time != [] && AllDigits(time) && timebase.Some? && timebase.value != []
                       && AllDigits(timebase.value) && DigitsValue(timebase.value) > 0
  {
    match ParseNat(time)
    case None => Err(BadNumber)
    case Some(frames) =>
      if timebase.None? then Err(MissingTimebase)
      else
        match ParseNat(timebase.value)
        case None => Err(BadNumber)
        case Some(tb) =>
          if tb == 0 then Err(ZeroTimebase)
          else
            Ok(Timestamp(frames, tb))
  }

  /** The text `formatTime` returns for a valid frame count and timebase: `hh:mm:ss,fff`. */
  function Timestamp(frames: nat, tb: nat): string
    requires tb > 0
  {
    TimeUtils.SecondsInTime(LongCast(frames / tb)) + "," + NatToString(Fractional(frames, tb))
  }

  /**
   * The `(long) ((q - seconds) * 1000)` part of `formatTime`, on exact integers. Java computes it on
   * doubles and is never higher than this; it is one lower when the exact thousandths are a whole
   * number and the double quotient falls just below it: for 29 frames at timebase 25 the quotient
   * 1.16 is stored as 1.1599999…, and Java writes `,159` where this function gives 160.
   */
  function Fractional(frames: nat, tb: nat): nat
    requires tb > 0
  {
    ((frames % tb) * 1000) / tb
  }

  /** Reads `h:mm:ss,f` as a number of milliseconds, taking `f` as a count of thousandths. */
  function ParseTimestamp(s: string): Option<nat>
  {
    var p := SplitAll(s, ',');
    if |p| == 2 && TimeUtils.ParseClock(p[0]).Some? && ParseNat(p[1]).Some? then
      Some(TimeUtils.ParseClock(p[0]).value * 1000 + ParseNat(p[1]).value)
    else
      None
  }

  // ---------------------------------------------------------------- the handler's state

  /** The handler's fields (all but the output path), as one value. */
  datatype ParserState = ParserState(
    count: nat,
    timebase: Option<string>,
    current: Option<Subtitle>,
    rootElement: bool,
    textParent: bool,
    tempVal: string,
    subtitles: seq<Option<Subtitle>>)

  /** A freshly constructed handler: no cue counted, nothing open, nothing collected. */
  const Initial: ParserState := ParserState(0, None, None, false, false, "", [])

  /** The state after a callback, and whether the callback threw. */
  datatype Transition = Transition(next: ParserState, outcome: Outcome)

  predicate IsGeneratorItem(name: string) { EqualsIgnoreCase(name, "generatoritem") }
  predicate IsRootName(name: string) { EqualsIgnoreCase(name, "sequence") || EqualsIgnoreCase(name, "xmeml") }

  /** `attributes.getValue("type")`: null when the element has no such attribute. */
  function TypeAttribute(attributes: map<string, string>): Option<string>
  {
    if "type" in attributes then Some(attributes["type"]) else None
  }

  /** What `startElement` does to the fields. */
  function StartStep(s: ParserState, qName: string, attributes: map<string, string>): Transition
  {
    var cleared := s.(tempVal := "");
    if IsGeneratorItem(qName) then
      Transition(cleared.(count := s.count + 1,
                          current := Some(Subtitle(s.count + 1, None, None, TypeAttribute(attributes)))), Pass)
    else if !s.rootElement then
      if !IsRootName(qName) then Transition(cleared, Fail(WrongRootElement))
      else Transition(cleared.(rootElement := true), Pass)
    else
      Transition(cleared, Pass)
  }

  /** Sets the start (`isStart`) or end time of the open subtitle, when one is open. */
  function TimeFieldStep(s: ParserState, isStart: bool): Transition
  {
    var cleared := s.(tempVal := "");
    if s.current.None? then Transition(cleared, Pass)
    else
      match FormatTime(s.tempVal, s.timebase)
      case Err(e) => Transition(s, Fail(e))
      case Ok(t) =>
        var c := s.current.value;
        Transition(cleared.(current := Some(if isStart then c.(startTime := Some(t)) else c.(endTime := Some(t)))), Pass)
  }

  /** What `endElement` does to the fields. */
  function EndStep(s: ParserState, qName: string): Transition
  {
    var cleared := s.(tempVal := "");
    if IsGeneratorItem(qName) then
      Transition(cleared.(subtitles := s.subtitles + [s.current], current := None), Pass)
    else if EqualsIgnoreCase(qName, "timebase") then
      Transition(cleared.(timebase := Some(s.tempVal)), Pass)
    else if EqualsIgnoreCase(qName, "start") then
      TimeFieldStep(s, true)
    else if EqualsIgnoreCase(qName, "end") then
      TimeFieldStep(s, false)
    else if EqualsIgnoreCase(qName, "parameterid") then
      Transition(if EqualsIgnoreCase(s.tempVal, "str") then cleared.(textParent := true) else cleared, Pass)
    else if EqualsIgnoreCase(qName, "value") then
      if !s.textParent then Transition(cleared, Pass)
      else if s.current.None? then Transition(s, Fail(NullSubtitle))
      else Transition(cleared.(current := Some(s.current.value.(text := Some(s.tempVal))), textParent := false), Pass)
    else
      Transition(cleared, Pass)
  }

  /** What `characters` does to the fields. */
  function CharactersStep(s: ParserState, chars: string): ParserState
  {
    s.(tempVal := s.tempVal + chars)
  }

  // ---------------------------------------------------------------- a document as a sequence of events

  /** The callbacks a SAX parser makes, in document order. */
  datatype Event =
    | Start(qName: string, attributes: map<string, string>)
    | End(qName: string)
    | Chars(chars: string)

  function Step(s: ParserState, e: Event): Transition
  {
    match e
    case Start(n, a) => StartStep(s, n, a)
    case End(n) => EndStep(s, n)
    case Chars(c) => Transition(CharactersStep(s, c), Pass)
  }

  /** Feeds the events one by one; the first callback that throws ends the parse. */
  function Run(s: ParserState, events: seq<Event>): Transition
    decreases |events|
  {
    if events == [] then Transition(s, Pass)
    else
      var t := Step(s, events[0]);
      if t.outcome.Fail? then t else Run(t.next, events[1..])
  }

  // ---------------------------------------------------------------- the handler

  class SubtilesSaxParser {
    var subtitles: seq<Option<Subtitle>>
    var count: nat
    var timebase: Option<string>
    var aSubtitle: Option<Subtitle>
    var rootElement: bool
    var tempVal: string
    var textParent: bool
    const destinationPath: string

    function State(): ParserState
      reads this
    {
      ParserState(count, timebase, aSubtitle, rootElement, textParent, tempVal, subtitles)
    }

    constructor (destinationPath: string)
      ensures State() == Initial && this.destinationPath == destinationPath
    {
      this.subtitles := [];
      this.destinationPath := destinationPath;
      count := 0;
      timebase := None;
      aSubtitle := None;
      rootElement := false;
      tempVal := "";
      textParent := false;
    }

    /** `startElement`: a `generatoritem` opens a new subtitle; the first other element is checked as root. */
    method StartElement(qName: string, attributes: map<string, string>) returns (outcome: Outcome)
      modifies this
      ensures State() == StartStep(old(State()), qName, attributes).next
      ensures outcome == StartStep(old(State()), qName, attributes).outcome
    {
      tempVal := "";
      outcome := Pass;
      if IsGeneratorItem(qName) {
        count := count + 1;
        aSubtitle := Some(Subtitle(count, None, None, TypeAttribute(attributes)));
      } else if !rootElement {
        if !IsRootName(qName) {
          outcome := Fail(WrongRootElement);
          return;
        }
        rootElement := true;
      }
    }

    /** `endElement`: closes a subtitle, stores the timebase, sets times and caption text; then clears the buffer. */
    method EndElement(qName: string) returns (outcome: Outcome)
      modifies this
      ensures State() == EndStep(old(State()), qName).next
      ensures outcome == EndStep(old(State()), qName).outcome
    {
      outcome := Pass;
      if IsGeneratorItem(qName) {
        subtitles := subtitles + [aSubtitle];
        aSubtitle := None;
      } else if EqualsIgnoreCase(qName, "timebase") {
        timebase := Some(tempVal);
      } else if EqualsIgnoreCase(qName, "start") {
        if aSubtitle.Some? {
          var t := FormatTime(tempVal, timebase);
          if t.Err? {
            outcome := Fail(t.error);
            return;
          }
          aSubtitle := Some(aSubtitle.value.(startTime := Some(t.value)));
        }
      } else if EqualsIgnoreCase(qName, "end") {
        if aSubtitle.Some? {
          var t := FormatTime(tempVal, timebase);
          if t.Err? {
            outcome := Fail(t.error);
            return;
          }
          aSubtitle := Some(aSubtitle.value.(endTime := Some(t.value)));
        }
      } else if EqualsIgnoreCase(qName, "parameterid") {
        if EqualsIgnoreCase(tempVal, "str") {
          textParent := true;
        }
      } else if EqualsIgnoreCase(qName, "value") {
        if textParent {
          if aSubtitle.None? {
            outcome := Fail(NullSubtitle);
            return;
          }
          aSubtitle := Some(aSubtitle.value.(text := Some(tempVal)));
          textParent := false;
        }
      }
      tempVal := "";
    }

    /** `characters`: appends `ch[start..start + length)` to the buffer. */
    method Characters(ch: array<char>, start: int, length: int)
      requires 0 <= start && 0 <= length && start + length <= ch.Length
      modifies this
      ensures State() == CharactersStep(old(State()), ch[start..start + length])
    {
      tempVal := tempVal + ch[start..start + length];
    }
  }
}
