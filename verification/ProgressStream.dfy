/**
  The CLI's reader of the panel's progress stream (server-sent events; WHATWG HTML, section 9.2).

  Text is bytes, one `char` per byte. What a `data:` payload means is the caller's `parse`: `None` for
  a payload that is not JSON.
 */
module ProgressStream {
  import opened Text

  datatype Step = Step(name: string, caption: string, status: string, message: Option<string>)

  type Parser = string -> Option<Step>

  const BLANK_LINE := "\n\n"
  const DATA := "data: "

  datatype Verdict = Passed | Failed | EndedEarly | TransportError

  // ------------------------------------------------------ the whole-input view

  /** A byte stream cut behind every blank line. */
  function Frames(s: string): Pieces<char> {
    CutBehind(s, BLANK_LINE)
  }

  /** The steps of some lines, in order. */
  function LineSteps(parse: Parser, lines: seq<string>): (r: seq<Step>) {
    if lines == [] then []
    else
      (if StartsWith(lines[0], DATA) && parse(lines[0][|DATA|..]).Some?
       then [parse(lines[0][|DATA|..]).value] else [])
      + LineSteps(parse, lines[1..])
  }

  function FrameSteps(parse: Parser, frames: seq<string>): (r: seq<Step>) {
    if frames == [] then [] else LineSteps(parse, Lines(frames[0])) + FrameSteps(parse, frames[1..])
  }

  predicate IsComplete(step: Step) {
    step.name == "complete"
  }

  /** What has been shown, and the verdict if one has been reached. */
  datatype Progress = Progress(shown: seq<Step>, verdict: Option<Verdict>)

  /** Show steps until one is `complete`. */
  function Shown(steps: seq<Step>): (r: Progress) {
    if steps == [] then Progress([], None)
    else if IsComplete(steps[0]) then Progress([steps[0]], Some(if steps[0].status == "error" then Failed else Passed))
    else Progress([steps[0]] + Shown(steps[1..]).shown, Shown(steps[1..]).verdict)
  }

  /** The steps a whole stream carries. */
  function StepsOf(parse: Parser, s: string): seq<Step> {
    FrameSteps(parse, Frames(s).parts)
  }

  /** The outcome of a stream whose bytes were `s`, that then broke off with a transport error or just ended. */
  function Outcome(parse: Parser, s: string, broken: bool): (r: (seq<Step>, Verdict)) {
    var p := Shown(StepsOf(parse, s));
    (p.shown, if p.verdict.Some? then p.verdict.value else if broken then TransportError else EndedEarly)
  }

  // --------------------------------------------------------- how steps combine

  lemma {:induction false} FrameStepsConcat(parse: Parser, a: seq<string>, b: seq<string>)
    ensures FrameSteps(parse, a + b) == FrameSteps(parse, a) + FrameSteps(parse, b)
  {
    if a == [] {
      assert a + b == b;
    } else {
      assert (a + b)[1..] == a[1..] + b;
      FrameStepsConcat(parse, a[1..], b);
    }
  }

  lemma {:induction false} ShownConcat(a: seq<Step>, b: seq<Step>)
    ensures Shown(a + b) ==
            if Shown(a).verdict.Some? then Shown(a) else Progress(Shown(a).shown + Shown(b).shown, Shown(b).verdict)
    ensures Shown(a).verdict.None? ==> Shown(a).shown == a
  {
    if a == [] {
      assert a + b == b;
    } else {
      assert (a + b)[1..] == a[1..] + b;
      ShownConcat(a[1..], b);
    }
  }

  // ------------------------------------------------------------- reading the stream

  /** Show `p` behind what has been shown already. */
  function After(shown: seq<Step>, p: Progress): Progress {
    Progress(shown + p.shown, p.verdict)
  }

  lemma LineStepsCons(parse: Parser, line: string, rest: seq<string>)
    ensures LineSteps(parse, [line] + rest) ==
            (if StartsWith(line, DATA) && parse(line[|DATA|..]).Some? then [parse(line[|DATA|..]).value] else [])
            + LineSteps(parse, rest)
  {
    assert ([line] + rest)[1..] == rest;
  }

  lemma AfterStep(shown: seq<Step>, step: Step, later: seq<Step>)
    ensures After(shown, Shown([step] + later)) ==
            if IsComplete(step) then Progress(shown + [step], Some(if step.status == "error" then Failed else Passed))
            else After(shown + [step], Shown(later))
  {
    assert ([step] + later)[1..] == later;
    assert shown + ([step] + Shown(later).shown) == shown + [step] + Shown(later).shown;
  }

  lemma NothingShown(parse: Parser)
    ensures Shown(LineSteps(parse, [])) == Progress([], None)
    ensures forall p: Progress :: After([], p) == p
  {
    forall p: Progress ensures After([], p) == p {
      assert [] + p.shown == p.shown;
    }
  }

  /** One frame's lines: show each step, stop at `complete`. */
  method ShowFrame(parse: Parser, frame: string) returns (p: Progress)
    ensures p == Shown(LineSteps(parse, Lines(frame)))
  {
    hide LineSteps, Lines, Shown;
    var lines := Lines(frame);
    var shown: seq<Step> := [];
    NothingShown(parse);
    var i := 0;
    assert lines[0..] == lines;
    while i < |lines|
      invariant i <= |lines|
      invariant Shown(LineSteps(parse, lines)) == After(shown, Shown(LineSteps(parse, lines[i..])))
    {
      var line := lines[i];
      assert lines[i..] == [line] + lines[i + 1..];
      LineStepsCons(parse, line, lines[i + 1..]);
      i := i + 1;
      ghost var later := LineSteps(parse, lines[i..]);
      assert [] + later == later;
      if !StartsWith(line, DATA) { continue; }
      var parsed := parse(line[|DATA|..]);
      if parsed.None? { continue; }
      var step := parsed.value;
      AfterStep(shown, step, later);
      shown := shown + [step];
      if step.name == "complete" {
        return Progress(shown, Some(if step.status == "error" then Failed else Passed));
      }
    }
    assert lines[i..] == [] && shown + [] == shown;
    p := Progress(shown, None);
  }

  /** Frames already shown, then frames still in the buffer: one more frame moves across. */
  lemma OneMoreFrame(parse: Parser, framed: seq<string>, buf: string, pos: nat)
    requires Find(buf, BLANK_LINE) == Some(pos)
    ensures framed + Frames(buf).parts == framed + [buf[..pos + 2]] + Frames(buf[pos + 2..]).parts
    ensures Frames(buf).rest == Frames(buf[pos + 2..]).rest
    ensures Shown(FrameSteps(parse, framed)).verdict.None? ==>
      var p := Shown(LineSteps(parse, Lines(buf[..pos + 2])));
      Shown(FrameSteps(parse, framed + [buf[..pos + 2]])) == After(Shown(FrameSteps(parse, framed)).shown, p)
  {
    hide Find, Lines, LineSteps, Shown, CutBehind;
    var frame := buf[..pos + 2];
    CutStep(buf, BLANK_LINE, pos);
    FrameStepsConcat(parse, framed, [frame]);
    assert [frame][1..] == [];
    assert FrameSteps(parse, [frame]) == LineSteps(parse, Lines(frame));
    ShownConcat(FrameSteps(parse, framed), FrameSteps(parse, [frame]));
    var f := Frames(buf[pos + 2..]).parts;
    assert framed + ([frame] + f) == framed + [frame] + f;
  }

  /**
    The reading loop over the chunks the transport delivers. Its outcome is that of the concatenated
    bytes: where the transport cut them makes no difference.
   */
  method FollowProgress(parse: Parser, chunks: seq<string>, broken: bool) returns (shown: seq<Step>, verdict: Verdict)
    ensures (shown, verdict) == Outcome(parse, Flat(chunks), broken)
  {
    hide Find, CutBehind, FrameSteps, LineSteps, Lines, Shown;
    var buf := "";
    shown := [];
    var k := 0;
    ghost var received := "";
    ghost var framed: seq<string> := [];
    assert chunks[0..] == chunks;
    NothingYet(parse);
    while k < |chunks|
      invariant k <= |chunks|
      invariant received + Flat(chunks[k..]) == Flat(chunks)
      invariant Frames(received) == Pieces(framed, buf)
      invariant Shown(FrameSteps(parse, framed)) == Progress(shown, None)
    {
      var chunk := chunks[k];
      CutExtends(received, chunk, BLANK_LINE);
      assert chunks[k..][1..] == chunks[k + 1..];
      assert received + (chunk + Flat(chunks[k + 1..])) == received + chunk + Flat(chunks[k + 1..]);
      buf := buf + chunk;
      received := received + chunk;
      k := k + 1;
      while Find(buf, BLANK_LINE).Some?
        invariant Frames(received) == Pieces(framed + Frames(buf).parts, Frames(buf).rest)
        invariant Shown(FrameSteps(parse, framed)) == Progress(shown, None)
        decreases |buf|
      {
        var pos := Find(buf, BLANK_LINE).value;
        var frame := buf[..pos + 2];
        OneMoreFrame(parse, framed, buf, pos);
        buf := buf[pos + 2..];
        var p := ShowFrame(parse, frame);
        shown := shown + p.shown;
        framed := framed + [frame];
        if p.verdict.Some? {
          VerdictStands(parse, received, Flat(chunks[k..]), framed, Frames(buf).parts);
          return shown, p.verdict.value;
        }
      }
      CutEnd(buf, BLANK_LINE);
      assert framed + [] == framed;
    }
    assert received + "" == received;
    verdict := if broken then TransportError else EndedEarly;
  }

  lemma NothingYet(parse: Parser)
    ensures Frames("") == Pieces([], "") && Shown(FrameSteps(parse, [])) == Progress([], None)
  {
  }

  /** Once a verdict is reached, no later byte changes what was shown or the verdict. */
  lemma VerdictStands(parse: Parser, received: string, later: string, done: seq<string>, undone: seq<string>)
    requires Frames(received).parts == done + undone
    requires Shown(FrameSteps(parse, done)).verdict.Some?
    ensures Shown(StepsOf(parse, received + later)) == Shown(FrameSteps(parse, done))
  {
    hide CutBehind, FrameSteps, Shown;
    CutExtends(received, later, BLANK_LINE);
    var more := undone + Frames(Frames(received).rest + later).parts;
    assert Frames(received + later).parts == done + more;
    FrameStepsConcat(parse, done, more);
    ShownConcat(FrameSteps(parse, done), FrameSteps(parse, more));
  }

  // ------------------------------------------------------- what a server sends

  /** A line of an event: one that carries a payload, or any other (a comment, another field). */
  datatype Sent = Payload(text: string) | Other(line: string)

  function LineOf(sent: Sent): string {
    match sent
    case Payload(text) => "data: " + text
    case Other(line) => line
  }

  predicate Sendable(sent: Sent) {
    && LineOf(sent) != "" && OneLine(LineOf(sent)) && !EndsWithCr(LineOf(sent))
    && (sent.Other? ==> !StartsWith(sent.line, "data: "))
  }

  predicate IsEvent(event: seq<Sent>) {
    event != [] && forall k :: 0 <= k < |event| ==> Sendable(event[k])
  }

  function LinesOf(event: seq<Sent>): (r: seq<string>)
    ensures |r| == |event| && forall k :: 0 <= k < |r| ==> r[k] == LineOf(event[k])
  {
    if event == [] then [] else [LineOf(event[0])] + LinesOf(event[1..])
  }

  /** Events, each one's lines and then a blank line. */
  function StreamText(events: seq<seq<Sent>>): string {
    if events == [] then "" else Terminated(LinesOf(events[0])) + "\n" + StreamText(events[1..])
  }

  /** The steps that the payloads of an event parse to, in order. */
  function EventSteps(parse: Parser, event: seq<Sent>): seq<Step> {
    if event == [] then []
    else
      (if event[0].Payload? && parse(event[0].text).Some? then [parse(event[0].text).value] else [])
      + EventSteps(parse, event[1..])
  }

  function Carried(parse: Parser, events: seq<seq<Sent>>): seq<Step> {
    if events == [] then [] else EventSteps(parse, events[0]) + Carried(parse, events[1..])
  }

  lemma BlankLineAt(s: string, i: int)
    ensures HasAt(s, i, "\n\n") <==> 0 <= i && i + 2 <= |s| && s[i] == '\n' && s[i + 1] == '\n'
  {
    if 0 <= i && i + 2 <= |s| {
      assert s[i..i + 2] == [s[i], s[i + 1]];
    }
  }

  lemma BlankLineBehind(l: string, more: string)
    requires l != "" && OneLine(l)
    ensures Find(l + ['\n'] + ("\n" + more), "\n\n") == Some(|l|)
  {
    hide Find;
    var s := l + ['\n'] + ("\n" + more);
    BlankLineAt(s, |l|);
    forall j | 0 <= j < |l| ensures !HasAt(s, j, "\n\n") {
      BlankLineAt(s, j);
      assert s[j] == l[j];
    }
  }

  lemma BlankLineLater(l: string, tail: string, i: nat)
    requires l != "" && OneLine(l) && tail != "" && tail[0] != '\n' && Find(tail, "\n\n") == Some(i)
    ensures Find(l + ['\n'] + tail, "\n\n") == Some(|l| + 1 + i)
  {
    hide Find;
    var s := l + ['\n'] + tail;
    BlankLineAt(s, |l| + 1 + i);
    BlankLineAt(tail, i);
    forall j | 0 <= j < |l| + 1 + i ensures !HasAt(s, j, "\n\n") {
      BlankLineAt(s, j);
      if j < |l| {
        assert s[j] == l[j];
      } else if j > |l| {
        BlankLineAt(tail, j - |l| - 1);
      }
    }
  }

  /** The first blank line behind non-empty lines is the one that ends them. */
  lemma {:induction false} EventEnds(lines: seq<string>, more: string)
    requires lines != [] && forall k :: 0 <= k < |lines| ==> lines[k] != "" && OneLine(lines[k])
    ensures Find(Terminated(lines) + "\n" + more, "\n\n") == Some(|Terminated(lines)| - 1)
  {
    hide Find;
    var l, rest := lines[0], lines[1..];
    var tail := Terminated(rest) + "\n" + more;
    assert Terminated(lines) + "\n" + more == l + ['\n'] + tail;
    assert l != "" && OneLine(l);
    if rest == [] {
      assert tail == "\n" + more;
      BlankLineBehind(l, more);
    } else {
      assert forall k :: 0 <= k < |rest| ==> rest[k] == lines[k + 1];
      EventEnds(rest, more);
      assert rest[0] != "" && OneLine(rest[0]);
      assert tail[0] == rest[0][0];
      BlankLineLater(l, tail, |Terminated(rest)| - 1);
    }
  }

  lemma {:induction false} StepsOfEvent(parse: Parser, event: seq<Sent>)
    requires forall k :: 0 <= k < |event| ==> Sendable(event[k])
    ensures LineSteps(parse, LinesOf(event) + [""]) == EventSteps(parse, event)
  {
    if event == [] {
      assert [] + [""] == [""] && [""][1..] == [];
    } else {
      var line, rest := LineOf(event[0]), LinesOf(event[1..]) + [""];
      assert Sendable(event[0]);
      assert LinesOf(event) + [""] == [line] + rest;
      LineStepsCons(parse, line, rest);
      assert event[0].Payload? ==> line[..6] == "data: " && line[6..] == event[0].text;
      assert forall k :: 0 <= k < |event[1..]| ==> event[1..][k] == event[k + 1];
      StepsOfEvent(parse, event[1..]);
    }
  }

  lemma EventLines(event: seq<Sent>)
    requires IsEvent(event)
    ensures Lines(Terminated(LinesOf(event)) + "\n") == LinesOf(event) + [""]
  {
    hide Lines;
    var lines := LinesOf(event);
    assert forall k :: 0 <= k < |lines| ==> Sendable(event[k]);
    LinesOfTerminated(lines, "\n");
    LinesCons("", "");
    LinesSingle("");
    assert "" + ['\n'] + "" == "\n";
  }

  /**
    The steps of a stream are those its events' `data:` payloads parse to, in order, whatever else its lines hold;
    an event whose blank line has not arrived counts for nothing.
   */
  lemma {:induction false} StreamCarries(parse: Parser, events: seq<seq<Sent>>, unfinished: string)
    requires (forall k :: 0 <= k < |events| ==> IsEvent(events[k])) && !Contains(unfinished, "\n\n")
    ensures StepsOf(parse, StreamText(events) + unfinished) == Carried(parse, events)
  {
    hide CutBehind, Find, LineSteps, Lines, IsEvent, EventSteps;
    if events == [] {
      assert "" + unfinished == unfinished;
      CutEnd(unfinished, BLANK_LINE);
    } else {
      assert IsEvent(events[0]) && forall k :: 1 <= k < |events| ==> events[k] == events[1..][k - 1];
      var lines, more := LinesOf(events[0]), StreamText(events[1..]) + unfinished;
      var frame := Terminated(lines) + "\n";
      var s := StreamText(events) + unfinished;
      assert s == frame + more;
      EventIsSendable(events[0]);
      EventEnds(lines, more);
      CutStep(s, BLANK_LINE, |frame| - 2);
      assert s[..|frame|] == frame && s[|frame|..] == more;
      StreamCarries(parse, events[1..], unfinished);
      var frames := Frames(more).parts;
      assert ([frame] + frames)[1..] == frames;
      EventLines(events[0]);
      StepsOfEvent(parse, events[0]);
    }
  }

  lemma EventIsSendable(event: seq<Sent>)
    requires IsEvent(event)
    ensures LinesOf(event) != [] && Terminated(LinesOf(event)) != ""
    ensures forall k :: 0 <= k < |event| ==> Sendable(event[k])
    ensures forall k :: 0 <= k < |event| ==> LinesOf(event)[k] != "" && OneLine(LinesOf(event)[k])
  {
    forall k | 0 <= k < |event| ensures LinesOf(event)[k] != "" && OneLine(LinesOf(event)[k]) {
      assert Sendable(event[k]);
    }
  }

  // ---------------------------------------------------------------- properties

  /**
    The verdict is the first `complete` step's status, whatever the steps before it said; that step is the last
    one shown.
   */
  lemma {:induction false} VerdictIsFirstComplete(steps: seq<Step>, i: nat)
    requires i < |steps| && steps[i].name == "complete" && forall k :: 0 <= k < i ==> steps[k].name != "complete"
    ensures Shown(steps) == Progress(steps[..i + 1], Some(if steps[i].status == "error" then Failed else Passed))
  {
    if i == 0 {
      assert steps[..1] == [steps[0]];
    } else {
      assert steps[0].name != "complete";
      assert forall k :: 0 <= k < |steps[1..]| ==> steps[1..][k] == steps[k + 1];
      VerdictIsFirstComplete(steps[1..], i - 1);
      assert steps[..i + 1] == [steps[0]] + steps[1..][..i];
    }
  }

  /** No verdict is reached without a `complete` step, however many errors were shown. */
  lemma {:induction false} NoVerdictWithoutComplete(steps: seq<Step>)
    ensures Shown(steps).verdict.None? <==> forall k :: 0 <= k < |steps| ==> steps[k].name != "complete"
    ensures Shown(steps).verdict.None? ==> Shown(steps).shown == steps
  {
    if steps != [] {
      NoVerdictWithoutComplete(steps[1..]);
      assert forall k :: 0 <= k < |steps[1..]| ==> steps[1..][k] == steps[k + 1];
      assert forall k :: 1 <= k < |steps| ==> steps[k] == steps[1..][k - 1];
    }
  }
}
