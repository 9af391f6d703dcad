/**
 * What the subtitle handler guarantees: the timestamp format, the effect of each callback on the
 * fields, and what a whole sequence of callbacks produces (dense ids, one entry per closed cue,
 * a root check done once).
 */
module ExtractionProperties {
  import opened Wrappers
  import opened Strings
  import TimeUtils
  import opened Subtitles

  // ---------------------------------------------------------------- formatTime

  lemma {:induction false} MulMono(a: nat, b: nat, d: nat)
    requires a <= b
    ensures a * d <= b * d
  {
    if a < b {
      MulMono(a, b - 1, d);
      assert b * d == (b - 1) * d + d;
    }
  }

  lemma DivUnique(n: nat, d: nat, q: nat, r: nat)
    requires d > 0 && n == q * d + r && r < d
    ensures n / d == q && n % d == r
  {
    var q', r' := n / d, n % d;
    assert n == q' * d + r';
    if q' > q {
      MulMono(q + 1, q', d);
    } else if q' < q {
      MulMono(q' + 1, q, d);
    }
  }

  /** Thousandths of a second: `frames * 1000 / tb` splits into `frames / tb` seconds and `Fractional`. */
  lemma MillisecondsSplit(frames: nat, tb: nat)
    requires tb > 0
    ensures (frames * 1000) / tb / 1000 == frames / tb
    ensures (frames * 1000) / tb % 1000 == Fractional(frames, tb) < 1000
  {
    var q, r := frames / tb, frames % tb;
    var f, g := (r * 1000) / tb, (r * 1000) % tb;
    FractionBelow(r, tb);
    ScaleQuotient(frames, tb, q, r, f, g);
    DivUnique(frames * 1000, tb, q * 1000 + f, g);
    DivUnique(q * 1000 + f, 1000, q, f);
  }

  lemma FractionBelow(r: nat, tb: nat)
    requires r < tb
    ensures (r * 1000) / tb < 1000
  {
    var f := (r * 1000) / tb;
    assert f * tb <= r * 1000;
    if f >= 1000 {
      MulMono(1000, f, tb);
    }
  }

  lemma ScaleQuotient(frames: nat, tb: nat, q: nat, r: nat, f: nat, g: nat)
    requires frames == q * tb + r && r * 1000 == f * tb + g
    ensures frames * 1000 == (q * 1000 + f) * tb + g
  {
    calc {
      frames * 1000;
      (q * tb + r) * 1000;
      q * tb * 1000 + r * 1000;
      q * 1000 * tb + f * tb + g;
      (q * 1000 + f) * tb + g;
    }
  }

  /** For numeric frames and a positive numeric timebase `formatTime` succeeds, with the text `Timestamp` describes. */
  lemma FormatTimeOk(time: string, timebase: string, frames: nat, tb: nat)
    requires ParseNat(time) == Some(frames) && ParseNat(timebase) == Some(tb) && tb > 0
    ensures FormatTime(time, Some(timebase)) == Ok(Timestamp(frames, tb))
  {
  }

  /**
   * Below 2^63 seconds, where the `(long)` cast is exact, the timestamp of `frames` at `tb` frames
   * per second writes the truncated number of milliseconds `M = frames * 1000 / tb` as
   * `convertSecondsInTime(M / 1000) + "," + (M % 1000)`, the last field in plain decimal, below 1000
   * (`NatToStringNoLeadingZero`: no leading zero unless it is 0). Below 2^31 hours, where no hour
   * field wraps, `TimestampRoundTrip` reads such a text back into `M`.
   */
  lemma TimestampMilliseconds(frames: nat, tb: nat)
    requires tb > 0 && frames / tb < TimeUtils.TWO_63
    ensures var m := (frames * 1000) / tb;
      m / 1000 == frames / tb && Fractional(frames, tb) == m % 1000
      && Timestamp(frames, tb) == TimeUtils.SecondsInTime(m / 1000) + "," + NatToString(m % 1000)
  {
    var m := (frames * 1000) / tb;
    MillisecondsSplit(frames, tb);
    TimestampValue(frames, tb, m / 1000, m % 1000);
  }

  lemma TimestampValue(frames: nat, tb: nat, q: nat, f: nat)
    requires tb > 0 && q == frames / tb && f == Fractional(frames, tb) && q < TimeUtils.TWO_63
    ensures Timestamp(frames, tb) == TimeUtils.SecondsInTime(q) + "," + NatToString(f)
  {
  }

  /** A timestamp `clock,fraction` as `formatTime` writes it reads back as `seconds * 1000 + fraction`. */
  lemma TimestampRoundTrip(q: nat, f: nat)
    requires q < TimeUtils.CLOCK_LIMIT
    ensures ParseTimestamp(TimeUtils.SecondsInTime(q) + "," + NatToString(f)) == Some(q * 1000 + f)
  {
    var clock, frac := TimeUtils.SecondsInTime(q), NatToString(f);
    TimeUtils.SecondsInTimeCharacters(q);
    TimeUtils.SecondsInTimeRoundTrip(q);
    NatToStringRoundTrip(f);
    assert ',' !in clock by {
      assert forall i :: 0 <= i < |clock| ==> clock[i] != ',';
    }
    assert ',' !in frac by {
      assert forall i :: 0 <= i < |frac| ==> IsDigit(frac[i]);
    }
    PiecesRoundTrip(clock, frac, q, f);
  }

  lemma PiecesRoundTrip(clock: string, frac: string, q: nat, f: nat)
    requires ',' !in clock && ',' !in frac
    requires TimeUtils.ParseClock(clock) == Some(q) && ParseNat(frac) == Some(f)
    ensures ParseTimestamp(clock + "," + frac) == Some(q * 1000 + f)
  {
    SplitAllJoin(clock, ',', frac);
    SplitAllWithout(frac, ',');
    assert clock + "," + frac == clock + [','] + frac;
  }

  /** Which error `formatTime` meets: a text that is not a number, or a timebase of zero. */
  lemma FormatTimeErrors(time: string, timebase: Option<string>)
    ensures FormatTime(time, timebase) == Err(BadNumber) <==>
      ParseNat(time).None? || (timebase.Some? && ParseNat(timebase.value).None?)
    ensures FormatTime(time, timebase) == Err(ZeroTimebase) <==>
      ParseNat(time).Some? && timebase.Some? && ParseNat(timebase.value) == Some(0)
  {
  }

  // ---------------------------------------------------------------- element names

  predicate IsGeneratorItemStart(e: Event) { e.Start? && IsGeneratorItem(e.qName) }
  predicate IsGeneratorItemEnd(e: Event) { e.End? && IsGeneratorItem(e.qName) }

  /** `value` and `start` have the same length; their first letters tell them apart. */
  lemma ValueIsNotStart(n: string)
    requires EqualsIgnoreCase(n, "value")
    ensures !EqualsIgnoreCase(n, "start")
  {
    assert ToLower(n[0]) == ToLower('v');
  }

  // ---------------------------------------------------------------- one callback at a time

  /**
   * The list changes only when a `generatoritem` closes, and then by exactly one entry at the end,
   * the cue that was open (null if none was); entries already in the list never change.
   */
  lemma StepAppends(s: ParserState, e: Event)
    ensures Step(s, e).next.subtitles == s.subtitles + (if IsGeneratorItemEnd(e) then [s.current] else [])
    ensures IsGeneratorItemEnd(e) ==> Step(s, e).next.current.None? && Step(s, e).outcome.Pass?
  {
  }

  /**
   * The buffer: every start event empties it, every end event that does not throw empties it,
   * a throwing end event leaves every field as it was, and `characters` appends exactly its text.
   */
  lemma StepBuffer(s: ParserState, e: Event)
    ensures e.Start? ==> Step(s, e).next.tempVal == ""
    ensures e.End? && Step(s, e).outcome.Pass? ==> Step(s, e).next.tempVal == ""
    ensures e.End? && Step(s, e).outcome.Fail? ==> Step(s, e).next == s
    ensures e.Chars? ==> Step(s, e) == Transition(s.(tempVal := s.tempVal + e.chars), Pass)
  {
  }

  /**
   * The root check: once `rootElement` is set it stays set and no start event fails; before
   * that, the first start event that is not a `generatoritem` passes exactly when it is named
   * `sequence` or `xmeml`, and sets the flag then; every other event leaves the flag unset.
   */
  lemma StepRootCheck(s: ParserState, e: Event)
    ensures s.rootElement ==> Step(s, e).next.rootElement && (e.Start? ==> Step(s, e).outcome.Pass?)
    ensures !s.rootElement && e.Start? && !IsGeneratorItem(e.qName) ==>
      Step(s, e).outcome == (if IsRootName(e.qName) then Pass else Fail(WrongRootElement))
      && Step(s, e).next.rootElement == IsRootName(e.qName)
    ensures !s.rootElement && !(e.Start? && !IsGeneratorItem(e.qName)) ==> !Step(s, e).next.rootElement
    ensures IsGeneratorItemStart(e) ==> Step(s, e).outcome.Pass?
  {
  }

  /** Closing `timebase` stores the buffer; no other event touches the timebase. */
  lemma StepTimebase(s: ParserState, e: Event)
    ensures e.End? && EqualsIgnoreCase(e.qName, "timebase") ==>
      Step(s, e) == Transition(s.(tempVal := "", timebase := Some(s.tempVal)), Pass)
    ensures !(e.End? && EqualsIgnoreCase(e.qName, "timebase")) ==> Step(s, e).next.timebase == s.timebase
  {
  }

  /**
   * Closing `start` or `end` with no subtitle open only empties the buffer; with one open it sets
   * that subtitle's start or end time to `formatTime(buffer)` under the current timebase, or
   * throws, changing nothing, when `formatTime` does.
   */
  lemma TimeFieldClose(s: ParserState, n: string)
    requires EqualsIgnoreCase(n, "start") || EqualsIgnoreCase(n, "end")
    ensures s.current.None? ==> EndStep(s, n) == Transition(s.(tempVal := ""), Pass)
    ensures s.current.Some? && FormatTime(s.tempVal, s.timebase).Err? ==>
      EndStep(s, n) == Transition(s, Fail(FormatTime(s.tempVal, s.timebase).error))
    ensures s.current.Some? && FormatTime(s.tempVal, s.timebase).Ok? ==>
      var t := FormatTime(s.tempVal, s.timebase).value;
      var c := s.current.value;
      EndStep(s, n) == Transition(s.(tempVal := "", current := Some(
        if EqualsIgnoreCase(n, "start") then c.(startTime := Some(t)) else c.(endTime := Some(t)))), Pass)
  {
  }

  /** Closing `parameterid` raises the caption flag when the buffer reads `str` in any case, and never lowers it. */
  lemma ParameterIdClose(s: ParserState, n: string)
    requires EqualsIgnoreCase(n, "parameterid")
    ensures EndStep(s, n) == Transition(s.(tempVal := "", textParent := s.textParent || EqualsIgnoreCase(s.tempVal, "str")), Pass)
  {
  }

  /**
   * Closing `value`: without the flag nothing but the buffer changes; with it, the open
   * subtitle's text becomes the buffer and the flag drops; with it and no subtitle open the
   * handler throws (the null dereference) and nothing changes.
   */
  lemma ValueClose(s: ParserState, n: string)
    requires EqualsIgnoreCase(n, "value")
    ensures !s.textParent ==> EndStep(s, n) == Transition(s.(tempVal := ""), Pass)
    ensures s.textParent && s.current.None? ==> EndStep(s, n) == Transition(s, Fail(NullSubtitle))
    ensures s.textParent && s.current.Some? ==>
      EndStep(s, n) == Transition(s.(tempVal := "", textParent := false,
                                      current := Some(s.current.value.(text := Some(s.tempVal)))), Pass)
  {
    ValueIsNotStart(n);
  }

  /** The caption flag is not lowered when a cue closes: it carries over to the next `value`. */
  lemma FlagOutlivesCue(s: ParserState, n: string)
    requires IsGeneratorItem(n)
    ensures EndStep(s, n).next.textParent == s.textParent
  {
  }

  // ---------------------------------------------------------------- whole documents

  /** How many `generatoritem` elements close in `events`. */
  function Closes(events: seq<Event>): nat
  {
    if events == [] then 0
    else (if IsGeneratorItemEnd(events[0]) then 1 else 0) + Closes(events[1..])
  }

  /**
   * The list only grows: whatever it held before is a prefix of what it holds after, and a parse
   * that does not throw appends exactly one entry per `generatoritem` close.
   */
  lemma {:induction false} RunAppends(s: ParserState, events: seq<Event>)
    ensures s.subtitles <= Run(s, events).next.subtitles
    ensures Run(s, events).outcome.Pass? ==> |Run(s, events).next.subtitles| == |s.subtitles| + Closes(events)
    decreases |events|
  {
    if events != [] {
      StepAppends(s, events[0]);
      var t := Step(s, events[0]);
      if t.outcome.Pass? {
        RunAppends(t.next, events[1..]);
      }
    }
  }

  /**
   * Ids are dense: the list holds subtitles numbered 1, 2, ... in order, the counter counts them
   * plus the open one, and the open one carries the counter as its id.
   */
  ghost predicate IdsDense(s: ParserState)
  {
    (forall i :: 0 <= i < |s.subtitles| ==> s.subtitles[i].Some? && s.subtitles[i].value.id == i + 1)
    && s.count == |s.subtitles| + (if s.current.Some? then 1 else 0)
    && (s.current.Some? ==> s.current.value.id == s.count)
  }

  /** `generatoritem` elements never nest: each start finds no cue open, each end finds one open. */
  predicate WellNested(events: seq<Event>, open: bool)
  {
    if events == [] then true
    else if IsGeneratorItemStart(events[0]) then !open && WellNested(events[1..], true)
    else if IsGeneratorItemEnd(events[0]) then open && WellNested(events[1..], false)
    else WellNested(events[1..], open)
  }

  lemma StepKeepsIdsDense(s: ParserState, e: Event)
    requires IdsDense(s)
    requires IsGeneratorItemStart(e) ==> s.current.None?
    requires IsGeneratorItemEnd(e) ==> s.current.Some?
    ensures IdsDense(Step(s, e).next)
    ensures Step(s, e).next.current.Some? ==
      (if IsGeneratorItemStart(e) then true else if IsGeneratorItemEnd(e) then false else s.current.Some?)
  {
    StepAppends(s, e);
    if e.End? && !IsGeneratorItem(e.qName) && EqualsIgnoreCase(e.qName, "value") {
      ValueClose(s, e.qName);
    }
  }

  lemma {:induction false} RunKeepsIdsDense(s: ParserState, events: seq<Event>)
    requires IdsDense(s) && WellNested(events, s.current.Some?)
    ensures IdsDense(Run(s, events).next)
    decreases |events|
  {
    if events != [] {
      StepKeepsIdsDense(s, events[0]);
      var t := Step(s, events[0]);
      if t.outcome.Pass? {
        RunKeepsIdsDense(t.next, events[1..]);
      }
    }
  }

  /**
   * For a document whose `generatoritem` elements do not nest, the collected list holds no null
   * entry and its ids are exactly 1..N in document order, whether or not the parse ran to the end.
   */
  lemma RunIdsDense(events: seq<Event>)
    requires WellNested(events, false)
    ensures var out := Run(Initial, events).next.subtitles;
      forall i :: 0 <= i < |out| ==> out[i].Some? && out[i].value.id == i + 1
  {
    RunKeepsIdsDense(Initial, events);
  }

  /**
   * A `generatoritem` opened while another is open drops the earlier cue (its id is skipped);
   * the two closes then append the later cue and a null entry.
   */
  lemma NestedGeneratorItem(s: ParserState, n: string, attributes: map<string, string>)
    requires IsGeneratorItem(n) && s.current.Some?
    ensures Run(s, [Start(n, attributes), End(n), End(n)])
      == Transition(s.(tempVal := "", count := s.count + 1, current := None,
                       subtitles := s.subtitles + [Some(Subtitle(s.count + 1, None, None, TypeAttribute(attributes))), None]), Pass)
  {
    var cue := Some(Subtitle(s.count + 1, None, None, TypeAttribute(attributes)));
    var s1 := s.(tempVal := "", count := s.count + 1, current := cue);
    var s2 := s1.(current := None, subtitles := s.subtitles + [cue]);
    var s3 := s2.(subtitles := s.subtitles + [cue, None]);
    assert [Start(n, attributes), End(n), End(n)] == [Start(n, attributes)] + ([End(n)] + ([End(n)] + []));
    RunPassStep(s, Start(n, attributes), [End(n)] + ([End(n)] + []), s1);
    StepAppends(s1, End(n));
    RunPassStep(s1, End(n), [End(n)] + [], s2);
    StepAppends(s2, End(n));
    assert s2.subtitles + [s2.current] == s.subtitles + [cue, None];
    RunPassStep(s2, End(n), [], s3);
  }

  /** Once the root is validated it stays validated and no later event can fail the root check. */
  lemma {:induction false} RunRootOnce(s: ParserState, events: seq<Event>)
    requires s.rootElement
    ensures Run(s, events).next.rootElement
    ensures Run(s, events).outcome != Fail(WrongRootElement)
    decreases |events|
  {
    if events != [] {
      StepRootCheck(s, events[0]);
      var t := Step(s, events[0]);
      if t.outcome.Pass? {
        RunRootOnce(t.next, events[1..]);
      } else {
        assert !events[0].Start?;
      }
    }
  }

  /** A document whose first element is neither `sequence`, `xmeml` nor `generatoritem` fails at once, with nothing collected. */
  lemma WrongRootRejected(n: string, attributes: map<string, string>, rest: seq<Event>)
    requires !IsGeneratorItem(n) && !IsRootName(n)
    ensures Run(Initial, [Start(n, attributes)] + rest) == Transition(Initial, Fail(WrongRootElement))
  {
    assert ([Start(n, attributes)] + rest)[0] == Start(n, attributes);
  }

  /** A step that does not throw hands its state on to the rest of the run. */
  lemma RunPassStep(s: ParserState, e: Event, rest: seq<Event>, t: ParserState)
    requires Step(s, e) == Transition(t, Pass)
    ensures Run(s, [e] + rest) == Run(t, rest)
  {
    assert ([e] + rest)[0] == e && ([e] + rest)[1..] == rest;
  }

  /** Inside a validated root, opening any element other than `generatoritem` only empties the buffer. */
  lemma StartInsideRoot(s: ParserState, n: string, attributes: map<string, string>)
    requires s.rootElement && !IsGeneratorItem(n)
    ensures Step(s, Start(n, attributes)) == Transition(s.(tempVal := ""), Pass)
  {
  }

  /**
   * Timebase is last-seen-wins: after a `timebase` element, a `start` element inside the open cue
   * is converted with that timebase, whatever timebase was in force before.
   */
  lemma LatestTimebaseUsed(s: ParserState, tb: string, frames: string,
                           nTimebase: string, nStart: string, a1: map<string, string>, a2: map<string, string>)
    requires s.rootElement && s.current.Some?
    requires EqualsIgnoreCase(nTimebase, "timebase") && EqualsIgnoreCase(nStart, "start")
    ensures var t := Run(s, [Start(nTimebase, a1), Chars(tb), End(nTimebase), Start(nStart, a2), Chars(frames), End(nStart)]);
      var f := FormatTime(frames, Some(tb));
      t.next.timebase == Some(tb)
      && (f.Ok? ==> t.outcome.Pass? && t.next.current == Some(s.current.value.(startTime := Some(f.value))))
      && (f.Err? ==> t.outcome == Fail(f.error))
  {
    var s5 := s.(tempVal := frames, timebase := Some(tb));
    TimebaseThenStartPrefix(s, tb, frames, nTimebase, nStart, a1, a2);
    RunSingle(s5, End(nStart));
    TimeFieldClose(s5, nStart);
  }

  /** No event but a `timebase` close touches the timebase, so a run without one keeps it, even one that throws. */
  lemma {:induction false} RunKeepsTimebase(s: ParserState, events: seq<Event>)
    requires forall i :: 0 <= i < |events| ==> !(events[i].End? && EqualsIgnoreCase(events[i].qName, "timebase"))
    ensures Run(s, events).next.timebase == s.timebase
    decreases |events|
  {
    if events != [] {
      StepTimebase(s, events[0]);
      var t := Step(s, events[0]);
      if t.outcome.Pass? {
        assert forall i :: 0 <= i < |events[1..]| ==> events[1..][i] == events[i + 1];
        RunKeepsTimebase(t.next, events[1..]);
      }
    }
  }

  /** Inside a validated root, a `timebase` element stores its text as the timebase. */
  lemma TimebaseElement(s: ParserState, tb: string, nTimebase: string, a1: map<string, string>)
    requires s.rootElement && EqualsIgnoreCase(nTimebase, "timebase")
    ensures Run(s, [Start(nTimebase, a1), Chars(tb), End(nTimebase)]) == Transition(s.(tempVal := "", timebase := Some(tb)), Pass)
  {
    var e2 := [End(nTimebase)];
    var e1 := [Chars(tb)] + e2;
    assert [Start(nTimebase, a1), Chars(tb), End(nTimebase)] == [Start(nTimebase, a1)] + e1;
    var s1 := s.(tempVal := "");
    var s2 := s1.(tempVal := tb);
    StartInsideRoot(s, nTimebase, a1);
    RunPassStep(s, Start(nTimebase, a1), e1, s1);
    assert "" + tb == tb;
    RunPassStep(s1, Chars(tb), e2, s2);
    StepTimebase(s2, End(nTimebase));
    RunPassStep(s2, End(nTimebase), [], s.(tempVal := "", timebase := Some(tb)));
  }

  /** Inside a validated root, a `start` element's text reaches the buffer before its close converts it. */
  lemma StartTimeElement(s: ParserState, frames: string, nStart: string, a2: map<string, string>)
    requires s.rootElement && EqualsIgnoreCase(nStart, "start")
    ensures Run(s, [Start(nStart, a2), Chars(frames), End(nStart)]) == Step(s.(tempVal := frames), End(nStart))
  {
    var e2 := [End(nStart)];
    var e1 := [Chars(frames)] + e2;
    assert [Start(nStart, a2), Chars(frames), End(nStart)] == [Start(nStart, a2)] + e1;
    var s1 := s.(tempVal := "");
    StartInsideRoot(s, nStart, a2);
    RunPassStep(s, Start(nStart, a2), e1, s1);
    assert "" + frames == frames;
    RunPassStep(s1, Chars(frames), e2, s.(tempVal := frames));
    RunSingle(s.(tempVal := frames), End(nStart));
  }

  /**
   * Timebase is last-seen-wins across a document: after a `timebase` element and any events that
   * close no other `timebase` (`</rate>`, `<in>`, `<out>`, …), the timebase is that element's text,
   * and a following `start` element converts its frame count with it into the open cue, or
   * throws with `formatTime`'s error. A throw in between ends the parse there.
   */
  lemma LatestTimebaseAcross(s: ParserState, tb: string, frames: string, nTimebase: string, nStart: string,
                             a1: map<string, string>, a2: map<string, string>, between: seq<Event>)
    requires s.rootElement
    requires EqualsIgnoreCase(nTimebase, "timebase") && EqualsIgnoreCase(nStart, "start")
    requires forall i :: 0 <= i < |between| ==> !(between[i].End? && EqualsIgnoreCase(between[i].qName, "timebase"))
    ensures var head := [Start(nTimebase, a1), Chars(tb), End(nTimebase)] + between;
      var u := Run(s, head);
      var t := Run(s, head + [Start(nStart, a2), Chars(frames), End(nStart)]);
      var f := FormatTime(frames, Some(tb));
      u.next.timebase == Some(tb)
      && (u.outcome.Fail? ==> t == u)
      && (u.outcome.Pass? && u.next.current.Some? ==>
            t.next.timebase == Some(tb)
            && (f.Ok? ==> t.outcome.Pass? && t.next.current == Some(u.next.current.value.(startTime := Some(f.value))))
            && (f.Err? ==> t.outcome == Fail(f.error)))
  {
    var param := [Start(nTimebase, a1), Chars(tb), End(nTimebase)];
    var tail := [Start(nStart, a2), Chars(frames), End(nStart)];
    TimebaseElement(s, tb, nTimebase, a1);
    RunConcat(s, param, between);
    RunKeepsTimebase(s.(tempVal := "", timebase := Some(tb)), between);
    RunConcat(s, param + between, tail);
    var u := Run(s, param + between);
    if u.outcome.Pass? && u.next.current.Some? {
      RunRootOnce(s.(tempVal := "", timebase := Some(tb)), between);
      StartTimeElement(u.next, frames, nStart, a2);
      TimeFieldClose(u.next.(tempVal := frames), nStart);
    }
  }

  /** A run of one event is that event's step. */
  lemma RunSingle(s: ParserState, e: Event)
    ensures Run(s, [e]) == Step(s, e)
  {
    assert [e][1..] == [];
  }

  /** The first five events of `LatestTimebaseUsed` store the timebase and leave the frame count in the buffer. */
  lemma TimebaseThenStartPrefix(s: ParserState, tb: string, frames: string,
                                nTimebase: string, nStart: string, a1: map<string, string>, a2: map<string, string>)
    requires s.rootElement
    requires EqualsIgnoreCase(nTimebase, "timebase") && EqualsIgnoreCase(nStart, "start")
    ensures Run(s, [Start(nTimebase, a1), Chars(tb), End(nTimebase), Start(nStart, a2), Chars(frames), End(nStart)])
      == Run(s.(tempVal := frames, timebase := Some(tb)), [End(nStart)])
  {
    var e5 := [End(nStart)];
    var e4 := [Chars(frames)] + e5;
    var e3 := [Start(nStart, a2)] + e4;
    var e2 := [End(nTimebase)] + e3;
    var e1 := [Chars(tb)] + e2;
    var evs := [Start(nTimebase, a1)] + e1;
    assert evs == [Start(nTimebase, a1), Chars(tb), End(nTimebase), Start(nStart, a2), Chars(frames), End(nStart)];
    var s1 := s.(tempVal := "");
    var s2 := s1.(tempVal := tb);
    var s3 := s.(tempVal := "", timebase := Some(tb));
    StartInsideRoot(s, nTimebase, a1);
    RunPassStep(s, Start(nTimebase, a1), e1, s1);
    assert "" + tb == tb;
    RunPassStep(s1, Chars(tb), e2, s2);
    StepTimebase(s2, End(nTimebase));
    RunPassStep(s2, End(nTimebase), e3, s3);
    StartInsideRoot(s3, nStart, a2);
    RunPassStep(s3, Start(nStart, a2), e4, s3);
    assert "" + frames == frames;
    RunPassStep(s3, Chars(frames), e5, s3.(tempVal := frames));
  }

  /** Closing an element the handler does not look at only empties the buffer. */
  lemma EndOther(s: ParserState, n: string)
    requires !IsGeneratorItem(n) && !EqualsIgnoreCase(n, "timebase") && !EqualsIgnoreCase(n, "start")
    requires !EqualsIgnoreCase(n, "end") && !EqualsIgnoreCase(n, "parameterid") && !EqualsIgnoreCase(n, "value")
    ensures EndStep(s, n) == Transition(s.(tempVal := ""), Pass)
  {
  }

  /**
   * The caption flag is raised only by a `parameterid` close whose buffer reads `str`, and
   * lowered only by a `value` close with a subtitle open; every other event keeps it.
   */
  lemma StepTextParent(s: ParserState, e: Event)
    ensures Step(s, e).next.textParent && !s.textParent ==>
      e.End? && EqualsIgnoreCase(e.qName, "parameterid") && EqualsIgnoreCase(s.tempVal, "str")
    ensures !Step(s, e).next.textParent && s.textParent ==>
      e.End? && EqualsIgnoreCase(e.qName, "value") && s.current.Some?
  {
  }

  /** A run of events is the run of its first part followed, unless that part threw, by the run of the rest. */
  lemma {:induction false} RunConcat(s: ParserState, a: seq<Event>, b: seq<Event>)
    ensures Run(s, a + b) == (var t := Run(s, a); if t.outcome.Fail? then t else Run(t.next, b))
    decreases |a|
  {
    if a == [] {
      assert a + b == b;
    } else {
      assert (a + b)[0] == a[0] && (a + b)[1..] == a[1..] + b;
      var t := Step(s, a[0]);
      if t.outcome.Pass? {
        RunConcat(t.next, a[1..], b);
      }
    }
  }

  /** Events that cannot touch the caption: no cue opens or closes, and no `parameterid` or `value` closes. */
  predicate KeepsCaption(e: Event)
  {
    !IsGeneratorItemStart(e) && !IsGeneratorItemEnd(e)
    && !(e.End? && (EqualsIgnoreCase(e.qName, "parameterid") || EqualsIgnoreCase(e.qName, "value")))
  }

  /** Such an event keeps the flag, the validated root, and the open subtitle's id and text. */
  lemma StepKeepsCaption(s: ParserState, e: Event)
    requires KeepsCaption(e)
    ensures var n := Step(s, e).next;
      n.textParent == s.textParent && (s.rootElement ==> n.rootElement)
      && n.current.Some? == s.current.Some?
      && (s.current.Some? ==> n.current.value.id == s.current.value.id && n.current.value.text == s.current.value.text)
  {
    if e.End? && (EqualsIgnoreCase(e.qName, "start") || EqualsIgnoreCase(e.qName, "end")) {
      TimeFieldClose(s, e.qName);
    }
  }

  lemma {:induction false} RunKeepsCaption(s: ParserState, events: seq<Event>)
    requires forall i :: 0 <= i < |events| ==> KeepsCaption(events[i])
    ensures var n := Run(s, events).next;
      n.textParent == s.textParent && (s.rootElement ==> n.rootElement)
      && n.current.Some? == s.current.Some?
      && (s.current.Some? ==> n.current.value.id == s.current.value.id && n.current.value.text == s.current.value.text)
    decreases |events|
  {
    if events != [] {
      StepKeepsCaption(s, events[0]);
      var t := Step(s, events[0]);
      if t.outcome.Pass? {
        RunKeepsCaption(t.next, events[1..]);
      }
    }
  }

  /** Event `i` of `events`, run from `s`, is a `parameterid` close whose buffer reads `str`. */
  predicate RaisesFlagAt(s: ParserState, events: seq<Event>, i: nat)
    requires i < |events|
  {
    events[i].End? && EqualsIgnoreCase(events[i].qName, "parameterid")
    && EqualsIgnoreCase(Run(s, events[..i]).next.tempVal, "str")
  }

  /**
   * With the flag down and a cue open, an event that neither opens nor closes a cue nor raises the
   * flag keeps the flag down and the cue's id and text: a `value` close without the flag only
   * empties the buffer.
   */
  lemma StepKeepsText(s: ParserState, e: Event)
    requires !s.textParent && s.current.Some? && !IsGeneratorItemStart(e) && !IsGeneratorItemEnd(e)
    requires !(e.End? && EqualsIgnoreCase(e.qName, "parameterid") && EqualsIgnoreCase(s.tempVal, "str"))
    ensures var t := Step(s, e);
      t.outcome.Pass? ==>
        !t.next.textParent && t.next.current.Some?
        && t.next.current.value.id == s.current.value.id && t.next.current.value.text == s.current.value.text
  {
    if e.End? && (EqualsIgnoreCase(e.qName, "start") || EqualsIgnoreCase(e.qName, "end")) {
      TimeFieldClose(s, e.qName);
    } else if e.End? && EqualsIgnoreCase(e.qName, "parameterid") {
      ParameterIdClose(s, e.qName);
    } else if e.End? && EqualsIgnoreCase(e.qName, "value") {
      ValueClose(s, e.qName);
    }
  }

  /**
   * A cue keeps the text it took from its `type` attribute unless a `parameterid` reading `str`
   * comes before its `value`: other parameters of the generator (a `parameterid` such as
   * `fontname` and its `value`) leave the text and the flag alone. The flag must be down when
   * the cue opens, since a cue close does not lower it (`FlagOutlivesCue`).
   */
  lemma {:induction false} RunKeepsText(s: ParserState, events: seq<Event>)
    requires !s.textParent && s.current.Some?
    requires forall i :: 0 <= i < |events| ==> !IsGeneratorItemStart(events[i]) && !IsGeneratorItemEnd(events[i])
    requires forall i :: 0 <= i < |events| ==> !RaisesFlagAt(s, events, i)
    ensures var t := Run(s, events);
      t.outcome.Pass? ==>
        !t.next.textParent && t.next.current.Some?
        && t.next.current.value.id == s.current.value.id && t.next.current.value.text == s.current.value.text
    decreases |events|
  {
    if events != [] {
      var e := events[0];
      assert events[..0] == [];
      assert !RaisesFlagAt(s, events, 0);
      StepKeepsText(s, e);
      var t := Step(s, e);
      if t.outcome.Pass? {
        var rest := events[1..];
        forall j | 0 <= j < |rest|
          ensures !RaisesFlagAt(t.next, rest, j)
        {
          assert events[..j + 1] == [e] + rest[..j];
          RunPassStep(s, e, rest[..j], t.next);
          assert !RaisesFlagAt(s, events, j + 1);
        }
        forall j | 0 <= j < |rest|
          ensures !IsGeneratorItemStart(rest[j]) && !IsGeneratorItemEnd(rest[j])
        {
          assert rest[j] == events[j + 1];
        }
        RunKeepsText(t.next, rest);
      }
    }
  }

  /** Inside a validated root, a `parameterid` element reading `str` in any case raises the caption flag. */
  lemma ParameterIdRaisesFlag(s: ParserState, marker: string, nParam: string, a1: map<string, string>)
    requires s.rootElement && EqualsIgnoreCase(marker, "str") && EqualsIgnoreCase(nParam, "parameterid")
    ensures Run(s, [Start(nParam, a1), Chars(marker), End(nParam)]) == Transition(s.(tempVal := "", textParent := true), Pass)
  {
    var e2 := [End(nParam)];
    var e1 := [Chars(marker)] + e2;
    assert [Start(nParam, a1), Chars(marker), End(nParam)] == [Start(nParam, a1)] + e1;
    var s1 := s.(tempVal := "");
    var s2 := s1.(tempVal := marker);
    StartInsideRoot(s, nParam, a1);
    RunPassStep(s, Start(nParam, a1), e1, s1);
    assert "" + marker == marker;
    RunPassStep(s1, Chars(marker), e2, s2);
    ParameterIdClose(s2, nParam);
    RunPassStep(s2, End(nParam), [], s.(tempVal := "", textParent := true));
  }

  /** With the flag raised and a subtitle open, a `value` element sets that subtitle's text and lowers the flag. */
  lemma ValueSetsCaption(s: ParserState, caption: string, nValue: string, a2: map<string, string>)
    requires s.rootElement && s.textParent && s.current.Some? && EqualsIgnoreCase(nValue, "value")
    ensures Run(s, [Start(nValue, a2), Chars(caption), End(nValue)])
      == Transition(s.(tempVal := "", textParent := false, current := Some(s.current.value.(text := Some(caption)))), Pass)
  {
    var e2 := [End(nValue)];
    var e1 := [Chars(caption)] + e2;
    assert [Start(nValue, a2), Chars(caption), End(nValue)] == [Start(nValue, a2)] + e1;
    var s1 := s.(tempVal := "");
    var s2 := s1.(tempVal := caption);
    StartInsideRoot(s, nValue, a2);
    RunPassStep(s, Start(nValue, a2), e1, s1);
    assert "" + caption == caption;
    RunPassStep(s1, Chars(caption), e2, s2);
    ValueClose(s2, nValue);
    RunPassStep(s2, End(nValue), [], s.(tempVal := "", textParent := false, current := Some(s.current.value.(text := Some(caption)))));
  }

  /**
   * A `parameterid` reading `str` (any case) followed by a `value` replaces the open subtitle's
   * text, set from the `type` attribute when it opened, with the value's text.
   */
  lemma CaptionOverride(s: ParserState, marker: string, caption: string,
                        nParam: string, nValue: string, a1: map<string, string>, a2: map<string, string>)
    requires s.rootElement && s.current.Some?
    requires EqualsIgnoreCase(marker, "str")
    requires EqualsIgnoreCase(nParam, "parameterid") && EqualsIgnoreCase(nValue, "value")
    ensures Run(s, [Start(nParam, a1), Chars(marker), End(nParam), Start(nValue, a2), Chars(caption), End(nValue)])
      == Transition(s.(tempVal := "", textParent := false, current := Some(s.current.value.(text := Some(caption)))), Pass)
  {
    var head := [Start(nParam, a1), Chars(marker), End(nParam)];
    var tail := [Start(nValue, a2), Chars(caption), End(nValue)];
    assert [Start(nParam, a1), Chars(marker), End(nParam), Start(nValue, a2), Chars(caption), End(nValue)] == head + tail;
    ParameterIdRaisesFlag(s, marker, nParam, a1);
    RunConcat(s, head, tail);
    ValueSetsCaption(s.(tempVal := "", textParent := true), caption, nValue, a2);
  }

  /**
   * The same across any elements in between (a generator parameter's `name`, say) that neither
   * open nor close a cue nor close a `parameterid` or `value`: if those events do not throw, the
   * `value` sets the text of the same subtitle and lowers the flag; if they throw, the parse
   * stops there.
   */
  lemma CaptionOverrideAcross(s: ParserState, marker: string, caption: string, nParam: string, nValue: string,
                              a1: map<string, string>, a2: map<string, string>, between: seq<Event>)
    requires s.rootElement && s.current.Some?
    requires EqualsIgnoreCase(marker, "str")
    requires EqualsIgnoreCase(nParam, "parameterid") && EqualsIgnoreCase(nValue, "value")
    requires forall i :: 0 <= i < |between| ==> KeepsCaption(between[i])
    ensures var head := [Start(nParam, a1), Chars(marker), End(nParam)] + between;
      var u := Run(s, head);
      var t := Run(s, head + [Start(nValue, a2), Chars(caption), End(nValue)]);
      (u.outcome.Fail? ==> t == u)
      && (u.outcome.Pass? ==>
            u.next.current.Some? && u.next.current.value.id == s.current.value.id
            && t == Transition(u.next.(tempVal := "", textParent := false,
                                       current := Some(u.next.current.value.(text := Some(caption)))), Pass))
  {
    var param := [Start(nParam, a1), Chars(marker), End(nParam)];
    var tail := [Start(nValue, a2), Chars(caption), End(nValue)];
    var s3 := s.(tempVal := "", textParent := true);
    ParameterIdRaisesFlag(s, marker, nParam, a1);
    RunConcat(s, param, between);
    RunKeepsCaption(s3, between);
    RunConcat(s, param + between, tail);
    var u := Run(s, param + between);
    if u.outcome.Pass? {
      ValueSetsCaption(u.next, caption, nValue, a2);
    }
  }
}
