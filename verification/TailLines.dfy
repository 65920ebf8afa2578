/**
  Following a capture file line by line until a flag says its writer is gone.

  Text is bytes, one `char` per byte.
 */
module TailLines {
  import opened Text

  const NL := "\n"

  // ------------------------------------------------------------- lines of a file

  /** `trim_end_matches(['\n', '\r'])` */
  function TrimEol(s: string): string {
    if s != [] && (s[|s| - 1] == '\n' || s[|s| - 1] == '\r') then TrimEol(s[..|s| - 1]) else s
  }

  function TrimAll(lines: seq<string>): (r: seq<string>)
    ensures |r| == |lines|
  {
    if lines == [] then [] else [TrimEol(lines[0])] + TrimAll(lines[1..])
  }

  /** The lines of a finished file: an unterminated last line counts, and is given as it stands. */
  function FileLines(file: string): (r: seq<string>) {
    var c := CutBehind(file, NL);
    TrimAll(c.parts) + if c.rest == [] then [] else [c.rest]
  }

  lemma {:induction false} TrimAllConcat(a: seq<string>, b: seq<string>)
    ensures TrimAll(a + b) == TrimAll(a) + TrimAll(b)
  {
    if a == [] {
      assert a + b == b;
    } else {
      assert (a + b)[1..] == a[1..] + b;
      TrimAllConcat(a[1..], b);
    }
  }

  /** A line as it stands in a file: its text, some carriage returns, a line feed. */
  datatype Written = Written(text: string, crs: nat)

  function LineOf(w: Written): string {
    w.text + seq(w.crs, _ => '\r') + "\n"
  }

  function FileOf(ws: seq<Written>): string {
    if ws == [] then "" else LineOf(ws[0]) + FileOf(ws[1..])
  }

  function Texts(ws: seq<Written>): (r: seq<string>) {
    if ws == [] then [] else [ws[0].text] + Texts(ws[1..])
  }

  lemma {:induction false} TrimsReturns(text: string, n: nat)
    requires '\n' !in text && !EndsWithCr(text)
    ensures TrimEol(text + seq(n, _ => '\r')) == text
    decreases n
  {
    var s := text + seq(n, _ => '\r');
    if n == 0 {
      assert s == text;
    } else {
      assert s[..|s| - 1] == text + seq(n - 1, _ => '\r');
      TrimsReturns(text, n - 1);
    }
  }

  lemma TrimsLine(w: Written)
    requires '\n' !in w.text && !EndsWithCr(w.text)
    ensures TrimEol(LineOf(w)) == w.text
  {
    TrimsReturns(w.text, w.crs);
    assert LineOf(w)[..|LineOf(w)| - 1] == w.text + seq(w.crs, _ => '\r');
  }

  /** The lines of a file are its texts in order, without their ends, and a last unterminated one as it stands. */
  lemma {:induction false} FileLinesAre(ws: seq<Written>, last: string)
    requires (forall k :: 0 <= k < |ws| ==> '\n' !in ws[k].text && !EndsWithCr(ws[k].text)) && '\n' !in last
    ensures FileLines(FileOf(ws) + last) == Texts(ws) + if last == "" then [] else [last]
  {
    hide CutBehind, Find, TrimEol;
    var s := FileOf(ws) + last;
    if ws == [] {
      assert s == last;
      LacksElement(last, NL, '\n');
      CutEnd(last, NL);
    } else {
      var more := FileOf(ws[1..]) + last;
      assert s == LineOf(ws[0]) + more;
      assert '\n' !in ws[0].text;
      var body := ws[0].text + seq(ws[0].crs, _ => '\r');
      FirstOccurrence(body, '\n', more);
      assert s == body + ['\n'] + more;
      CutStep(s, NL, |body|);
      assert s[..|body| + 1] == LineOf(ws[0]);
      TrimsLine(ws[0]);
      assert forall k :: 0 <= k < |ws[1..]| ==> ws[1..][k] == ws[k + 1];
      FileLinesAre(ws[1..], last);
      var parts := CutBehind(more, NL).parts;
      assert ([LineOf(ws[0])] + parts)[1..] == parts;
      var end := if last == "" then [] else [last];
      assert [ws[0].text] + TrimAll(parts) + end == [ws[0].text] + (TrimAll(parts) + end);
      assert [ws[0].text] + Texts(ws[1..]) + end == [ws[0].text] + (Texts(ws[1..]) + end);
      assert CutBehind(s, NL) == Pieces([LineOf(ws[0])] + parts, CutBehind(more, NL).rest);
      assert TrimAll([LineOf(ws[0])] + parts) == [ws[0].text] + TrimAll(parts);
    }
  }

  // ------------------------------------------------------------- one tailer

  /** What a successful read does to the tailer when the receiver takes every line. */
  function CarryAfter(carry: string, unread: string): (r: Pieces<char>) {
    CutBehind(carry + unread, NL)
  }

  class Tailer {
    var pos: nat
    var carry: string
    var sent: seq<string>
    ghost var raw: seq<string>   // the lines sent, as they stood in the file

    constructor ()
      ensures pos == 0 && carry == "" && sent == [] && raw == []
    {
      pos, carry, sent, raw := 0, "", [], [];
    }

    /**
      One successful read of the file. The receiver takes `room` more lines before it is dropped;
      `gone` reports that it was dropped, with the line at hand lost.
     */
    method Read(file: string, room: nat) returns (gone: bool)
      requires pos <= |file|
      modifies this
      ensures var c := CarryAfter(old(carry), file[old(pos)..]);
              && pos == |file|
              && (gone <==> room < |c.parts|)
              && (!gone ==> raw == old(raw) + c.parts && sent == old(sent) + TrimAll(c.parts) && carry == c.rest)
              && (gone ==> raw == old(raw) + c.parts[..room] && sent == old(sent) + TrimAll(c.parts[..room]))
    {
      hide CutBehind, TrimAll, Find;
      var buf := file[pos..];
      pos := pos + |buf|;
      carry := carry + buf;
      ghost var c := CutBehind(carry, NL);
      ghost var taken: seq<string> := [];
      var n := 0;
      assert TrimAll([]) == [] by { TrimNothing(); }
      assert c == Pieces(taken + CutBehind(carry, NL).parts, CutBehind(carry, NL).rest);
      while Find(carry, NL).Some?
        invariant pos == |file| && n == |taken| <= room
        invariant c == Pieces(taken + CutBehind(carry, NL).parts, CutBehind(carry, NL).rest)
        invariant raw == old(raw) + taken && sent == old(sent) + TrimAll(taken)
        decreases |carry|
      {
        var i := Find(carry, NL).value;
        CutStep(carry, NL, i);
        var line := carry[..i + 1];
        carry := carry[i + 1..];
        assert taken + ([line] + CutBehind(carry, NL).parts) == taken + [line] + CutBehind(carry, NL).parts;
        if n == room {
          assert c.parts[..room] == taken;
          return true;
        }
        TrimAllConcat(taken, [line]);
        TrimOne(line);
        assert old(sent) + (TrimAll(taken) + [TrimEol(line)]) == old(sent) + TrimAll(taken) + [TrimEol(line)];
        sent := sent + [TrimEol(line)];
        raw := raw + [line];
        taken, n := taken + [line], n + 1;
      }
      CutEnd(carry, NL);
      assert taken + [] == taken;
      gone := false;
    }

    /** The last act: an unterminated line goes out as it stands. */
    method Flush()
      modifies this
      ensures sent == old(sent) + if old(carry) == [] then [] else [old(carry)]
      ensures pos == old(pos) && raw == old(raw) && carry == old(carry)
    {
      if carry != [] {
        sent := sent + [carry];
      }
    }
  }

  lemma TrimNothing()
    ensures TrimAll([]) == []
  {
  }

  lemma TrimOne(line: string)
    ensures TrimAll([line]) == [TrimEol(line)]
  {
    assert [line][1..] == [];
  }

  // --------------------------------------------------------------- all schedules

  datatype Pc = Idle                        // between polls
              | Loaded(finished: bool)      // has read the flag, not yet the file
              | HasRead(finished: bool)     // has tried to read the file
              | Returned

  /** The file and its writer, the flag, and the tailer. `lastReadOk` is how its latest read went. */
  datatype State = State(file: string, exited: bool, done: bool, pc: Pc,
                         pos: nat, carry: string, raw: seq<string>, sent: seq<string>, lastReadOk: bool)

  const START := State("", false, false, Idle, 0, "", [], [], true)

  datatype Action = Append(text: string) | Exit | SetDone | Load | ReadFile | ReadFails | Finish

  predicate Enabled(s: State, a: Action) {
    match a
    case Append(_) => !s.exited
    case Exit => !s.exited
    case SetDone => s.exited             // the flag is stored after `child.wait()`
    case Load => s.pc.Idle?
    case ReadFile => s.pc.Loaded? && s.pos <= |s.file|
    case ReadFails => s.pc.Loaded?
    case Finish => s.pc.HasRead?
  }

  function Apply(s: State, a: Action): State
    requires Enabled(s, a)
  {
    match a
    case Append(text) => s.(file := s.file + text)
    case Exit => s.(exited := true)
    case SetDone => s.(done := true)
    case Load => s.(pc := Loaded(s.done))
    case ReadFile =>
      var c := CarryAfter(s.carry, s.file[s.pos..]);
      s.(pc := HasRead(s.pc.finished), pos := |s.file|, carry := c.rest,
         raw := s.raw + c.parts, sent := s.sent + TrimAll(c.parts), lastReadOk := true)
    case ReadFails => s.(pc := HasRead(s.pc.finished), lastReadOk := false)
    case Finish =>
      if s.pc.finished then s.(pc := Returned, sent := s.sent + if s.carry == [] then [] else [s.carry])
      else s.(pc := Idle)
  }

  /** `run` is a legal interleaving from `s`, ending in `s'`. */
  ghost predicate Run(s: State, run: seq<Action>, s': State)
    decreases |run|
  {
    if run == [] then s == s'
    else Enabled(s, run[0]) && Run(Apply(s, run[0]), run[1..], s')
  }

  predicate Finishing(s: State) {
    s.pc == Loaded(true) || s.pc == HasRead(true) || s.pc == Returned
  }

  ghost predicate Inv(s: State) {
    && s.pos <= |s.file| && CutBehind(s.file[..s.pos], NL) == Pieces(s.raw, s.carry)
    && s.sent == (if s.pc.Returned? then FileLines(s.file[..s.pos]) else TrimAll(s.raw))
    && (s.done || Finishing(s) ==> s.exited)
    && (s.pc == HasRead(true) || s.pc.Returned? ==> s.lastReadOk ==> s.pos == |s.file|)
  }

  lemma StepInv(s: State, a: Action)
    requires Inv(s) && Enabled(s, a)
    ensures Inv(Apply(s, a))
  {
    hide CutBehind, TrimAll;
    match a
    case Append(text) => assert (s.file + text)[..s.pos] == s.file[..s.pos];
    case ReadFile =>
      var c := CarryAfter(s.carry, s.file[s.pos..]);
      CutExtends(s.file[..s.pos], s.file[s.pos..], NL);
      assert s.file[..s.pos] + s.file[s.pos..] == s.file == s.file[..|s.file|];
      TrimAllConcat(s.raw, c.parts);
    case _ =>
  }

  lemma {:induction false} RunInv(s: State, run: seq<Action>, s': State)
    requires Inv(s) && Run(s, run, s')
    ensures Inv(s')
    decreases |run|
  {
    if run != [] {
      StepInv(s, run[0]);
      RunInv(Apply(s, run[0]), run[1..], s');
    }
  }

  lemma StartInv()
    ensures Inv(START)
  {
  }

  /** At every moment of every schedule, the raw lines sent and the carry are the file up to `pos`. */
  lemma NothingLostNorRepeated(run: seq<Action>, s: State)
    requires Run(START, run, s)
    ensures s.pos <= |s.file| && Flat(s.raw) + s.carry == s.file[..s.pos]
    ensures !s.pc.Returned? ==> s.sent == TrimAll(s.raw)
  {
    StartInv();
    RunInv(START, run, s);
    CutConserves(s.file[..s.pos], NL);
  }

  /** Nothing but a line's end: any carriage returns and the line feed. */
  predicate OnlyEol(s: string) {
    s != [] && s[|s| - 1] == '\n' && forall k :: 0 <= k < |s| - 1 ==> s[k] == '\r'
  }

  lemma {:induction false} TrimEolShape(s: string, e: string)
    requires forall k :: 0 <= k < |e| ==> e[k] == '\r' || e[k] == '\n'
    ensures TrimEol(s + e) == TrimEol(s) && |TrimEol(s)| <= |s| && TrimEol(s) == s[..|TrimEol(s)|]
    decreases |s| + |e|
  {
    if e != [] {
      assert (s + e)[..|s + e| - 1] == s + e[..|e| - 1];
      TrimEolShape(s, e[..|e| - 1]);
    } else {
      assert s + e == s;
      if s != [] && (s[|s| - 1] == '\n' || s[|s| - 1] == '\r') {
        TrimEolShape(s[..|s| - 1], []);
        assert s[..|s| - 1] + [] == s[..|s| - 1];
      }
    }
  }

  lemma {:induction false} TrimEolKeeps(s: string, k: nat)
    requires k < |s| && s[k] != '\r' && s[k] != '\n'
    ensures |TrimEol(s)| > k
  {
    if s[|s| - 1] == '\n' || s[|s| - 1] == '\r' {
      TrimEolKeeps(s[..|s| - 1], k);
    }
  }

  /** When text behind an unterminated line leaves the lines as they were: it only ends that line. */
  lemma UnreadIsLostIff(rest: string, unread: string)
    requires !Contains(rest, NL)
    ensures FileLines(rest + unread) == FileLines(rest) <==>
            unread == [] || (rest != [] && !EndsWithCr(rest) && OnlyEol(unread))
  {
    hide Find, CutBehind, TrimEol;
    var s := rest + unread;
    CutEnd(rest, NL);
    TrimNothing();
    assert FileLines(rest) == if rest == [] then [] else [rest];
    if unread == [] {
      assert s == rest;
    } else if Find(s, NL).None? {
      CutEnd(s, NL);
      NoLf(s);
      assert unread[|unread| - 1] == s[|s| - 1];
      assert FileLines(s) == [s] && FileLines(s)[0] == s;
      assert rest != [] ==> FileLines(rest)[0] == rest && |rest| < |s|;
    } else {
      var i := Find(s, NL).value;
      CutStep(s, NL, i);
      assert s[i..i + 1][0] == '\n';
      assert i >= |rest| by {
        HasAtConcat(rest, unread, NL, i);
      }
      var line, tail := s[..i + 1], s[i + 1..];
      var more := CutBehind(tail, NL);
      assert TrimAll([line] + more.parts) == [TrimEol(line)] + TrimAll(more.parts) by {
        assert ([line] + more.parts)[1..] == more.parts;
      }
      CutConserves(tail, NL);
      if tail == [] {
        CutEmpty();
        var body := unread[..|unread| - 1];
        assert line == s == rest + unread && unread == body + NL;
        assert '\n' !in body by { NoEarlierLf(s, i); assert forall k :: 0 <= k < |body| ==> body[k] == s[|rest| + k]; }
        LineIs(rest, body);
      } else {
        FlatEmpty(more.parts);
      }
    }
  }

  lemma CutEmpty()
    ensures CutBehind<char>([], NL) == Pieces([], [])
  {
    LinesSingle([]);
  }

  lemma FlatEmpty(parts: seq<string>)
    ensures parts == [] ==> Flat(parts) == []
  {
  }

  lemma NoEarlierLf(s: string, i: nat)
    requires Find(s, NL) == Some(i)
    ensures forall k :: 0 <= k < i ==> s[k] != '\n'
  {
    forall k | 0 <= k < i ensures s[k] != '\n' {
      assert !HasAt(s, k, NL) && s[k..k + 1] == [s[k]];
    }
  }

  lemma LineIs(rest: string, body: string)
    requires '\n' !in body && !Contains(rest, NL)
    ensures rest != [] && TrimEol(rest + (body + NL)) == rest <==> rest != [] && !EndsWithCr(rest) && OnlyEol(body + NL)
  {
    NoLf(rest);
    var e := body + NL;
    if k :| 0 <= k < |body| && body[k] != '\r' {
      assert (rest + e)[|rest| + k] == body[k] == e[k];
      TrimEolKeeps(rest + e, |rest| + k);
    } else {
      assert OnlyEol(e);
      TrimEolShape(rest, e);
      if EndsWithCr(rest) {
        TrimEolShape(rest[..|rest| - 1], []);
        assert rest[..|rest| - 1] + [] == rest[..|rest| - 1];
      }
    }
  }

  lemma NoLf(s: string)
    requires !Contains(s, NL)
    ensures '\n' !in s
  {
    forall k | 0 <= k < |s| ensures s[k] != '\n' {
      assert !HasAt(s, k, NL) && s[k..k + 1] == [s[k]];
    }
  }

  lemma FileLinesExtend(a: string, b: string)
    ensures var c := CutBehind(a, NL);
            && FileLines(a) == TrimAll(c.parts) + FileLines(c.rest)
            && FileLines(a + b) == TrimAll(c.parts) + FileLines(c.rest + b)
  {
    hide CutBehind, TrimAll, Find;
    var c := CutBehind(a, NL);
    var d := CutBehind(c.rest + b, NL);
    CutExtends(a, b, NL);
    CutConserves(a, NL);
    CutEnd(c.rest, NL);
    TrimNothing();
    TrimAllConcat(c.parts, d.parts);
    var last := if d.rest == [] then [] else [d.rest];
    assert TrimAll(c.parts) + TrimAll(d.parts) + last == TrimAll(c.parts) + (TrimAll(d.parts) + last);
    var end := if c.rest == [] then [] else [c.rest];
    assert [] + end == end;
  }

  /**
    On return the writer is gone, and what was sent is the lines of the file up to `pos`: the final file's lines
    exactly when nothing was left unread — as when the last read succeeded — or only the end of a line whose text
    was sent as it stood.
   */
  lemma ReturnsWholeFile(run: seq<Action>, s: State)
    requires Run(START, run, s) && s.pc.Returned?
    ensures s.exited && s.pos <= |s.file| && s.sent == FileLines(s.file[..s.pos])
    ensures s.lastReadOk ==> s.pos == |s.file|
    ensures s.sent == FileLines(s.file) <==>
            s.pos == |s.file| || (s.carry != [] && !EndsWithCr(s.carry) && OnlyEol(s.file[s.pos..]))
  {
    StartInv();
    RunInv(START, run, s);
    hide Find, CutBehind, FileLines, OnlyEol;
    var seen, unread := s.file[..s.pos], s.file[s.pos..];
    assert s.file == seen + unread;
    CutConserves(seen, NL);
    FileLinesExtend(seen, unread);
    UnreadIsLostIff(s.carry, unread);
    var front := TrimAll(CutBehind(seen, NL).parts);
    var x, y := FileLines(s.carry), FileLines(s.carry + unread);
    assert (front + x)[|front|..] == x && (front + y)[|front|..] == y;
  }

  /** A last read that fails does lose lines: the writer's only line, here. */
  lemma FailedLastReadLosesLines()
    ensures exists run, s :: Run(START, run, s) && s.pc.Returned? && s.file == "x\n" && s.sent == []
  {
    var run := [Append("x\n"), Exit, SetDone, Load, ReadFails, Finish];
    var s := State("x\n", true, true, Returned, 0, "", [], [], false);
    var s4 := State("x\n", true, true, Loaded(true), 0, "", [], [], true);
    assert "" + "x\n" == "x\n";
    assert run[4..][1..] == run[5..] && run[5..][1..] == [];
    assert Run(Apply(s4, ReadFails), run[5..], s);
    assert Run(s4, run[4..], s);
    assert run[3..][1..] == run[4..] && run[2..][1..] == run[3..] && run[1..][1..] == run[2..];
    var s3 := s4.(pc := Idle);
    assert Run(s3, run[3..], s);
    assert Run(s3.(done := false), run[2..], s);
    assert Run(s3.(done := false, exited := false), run[1..], s);
    assert Run(START, run, s);
  }

  function Loads(run: seq<Action>): nat {
    if run == [] then 0 else (if run[0].Load? then 1 else 0) + Loads(run[1..])
  }

  /** Once the flag is set the tailer begins at most one more poll. */
  lemma {:induction false} StopsSoonAfterDone(s: State, run: seq<Action>, s': State)
    requires s.done && Run(s, run, s')
    ensures Loads(run) <= if Finishing(s) then 0 else 1
    decreases |run|
  {
    if run != [] {
      StopsSoonAfterDone(Apply(s, run[0]), run[1..], s');
    }
  }
}
