/**
  The milter lists of Postfix's `main.cf`: the edit that puts one more milter beside those already there.
 */
module Milters {
  import opened Text

  const SMTPD_KEY := "smtpd_milters"
  const NON_SMTPD_KEY := "non_smtpd_milters"

  /** The trimmed value of a line that sets `key`. */
  function ValueOf(line: string, key: string): (r: Option<string>) {
    if !StartsWith(line, key) then None
    else
      var rest := TrimStart(line[|key|..]);
      if rest != [] && rest[0] == '=' then Some(Trim(rest[1..])) else None
  }

  /** The key and value of a milter line. */
  function MilterLine(line: string): (r: Option<(string, string)>) {
    match ValueOf(line, SMTPD_KEY)
    case Some(value) => Some((SMTPD_KEY, value))
    case None =>
      match ValueOf(line, NON_SMTPD_KEY)
      case Some(value) => Some((NON_SMTPD_KEY, value))
      case None => None
  }

  /** The milters a value names. */
  function Entries(value: string): seq<string> {
    TrimAll(SplitCommas(value))
  }

  function TrimAll(parts: seq<string>): (r: seq<string>)
    ensures |r| == |parts| && forall k :: 0 <= k < |r| ==> r[k] == Trim(parts[k])
  {
    if parts == [] then [] else [Trim(parts[0])] + TrimAll(parts[1..])
  }

  function Extended(value: string, milter: string): string {
    if value == [] then milter else value + ", " + milter
  }

  function WithMilter(line: string, milter: string): string {
    match MilterLine(line)
    case None => line
    case Some((key, value)) =>
      if milter in Entries(value) then line else key + " = " + Extended(value, milter)
  }

  function WithMilters(lines: seq<string>, milter: string): (r: seq<string>)
    ensures |r| == |lines| && forall k :: 0 <= k < |r| ==> r[k] == WithMilter(lines[k], milter)
  {
    if lines == [] then [] else [WithMilter(lines[0], milter)] + WithMilters(lines[1..], milter)
  }

  predicate HasMilterLine(lines: seq<string>) {
    exists k :: 0 <= k < |lines| && MilterLine(lines[k]).Some?
  }

  predicate EndsWithLf(s: string) {
    s != [] && s[|s| - 1] == '\n'
  }

  /** What `AddMilter` gives. */
  function Added(text: string, milter: string): (r: Option<string>) {
    if HasMilterLine(Lines(text)) then
      Some(Join(WithMilters(Lines(text), milter)) + if EndsWithLf(text) then "\n" else "")
    else None
  }

  /** `add_milter`: one pass over the lines that also notes whether there was anything to extend. */
  method AddMilter(text: string, milter: string) returns (r: Option<string>)
    ensures r == Added(text, milter)
  {
    hide Lines, MilterLine, Join, Entries;
    var lines := Lines(text);
    var found := false;
    var rewritten: seq<string> := [];
    var i := 0;
    while i < |lines|
      invariant 0 <= i <= |lines| == i + |lines[i..]|
      invariant found <==> HasMilterLine(lines[..i])
      invariant |rewritten| == i && forall k :: 0 <= k < i ==> rewritten[k] == WithMilter(lines[k], milter)
    {
      var line := lines[i];
      assert lines[..i + 1] == lines[..i] + [line];
      assert forall k :: 0 <= k < i ==> lines[..i + 1][k] == lines[..i][k];
      assert lines[..i + 1][i] == line;
      match MilterLine(line) {
        case None =>
          rewritten := rewritten + [line];
        case Some((key, value)) =>
          found := true;
          if milter in Entries(value) {
            rewritten := rewritten + [line];
          } else if value == [] {
            rewritten := rewritten + [key + " = " + milter];
          } else {
            rewritten := rewritten + [key + " = " + value + ", " + milter];
            assert key + " = " + (value + ", " + milter) == key + " = " + value + ", " + milter;
          }
      }
      i := i + 1;
    }
    assert lines[..i] == lines;
    if !found {
      return None;
    }
    assert rewritten == WithMilters(lines, milter);
    var out := Join(rewritten);
    if EndsWithLf(text) {
      out := out + "\n";
    }
    assert out + "" == out;
    return Some(out);
  }

  // ---------------------------------------------------------------- one line

  /** The line is the key, white space or none, an equals sign and a text that trims to the value. */
  ghost predicate Sets(line: string, key: string, value: string) {
    exists gap, text :: Blank(gap) && line == key + gap + "=" + text && value == Trim(text)
  }

  lemma ValueOfIff(line: string, key: string, value: string)
    ensures ValueOf(line, key) == Some(value) <==> Sets(line, key, value)
  {
    hide Trim;
    if ValueOf(line, key) == Some(value) {
      var gap := TrimStartShape(line[|key|..]);
      var rest := TrimStart(line[|key|..]);
      assert line == key + gap + "=" + rest[1..];
    }
    forall gap, text | Blank(gap) && line == key + gap + "=" + text && value == Trim(text)
      ensures ValueOf(line, key) == Some(value)
    {
      TrimStartCore(gap, "=" + text);
      assert line[..|key|] == key && line[|key|..] == gap + ("=" + text);
      assert ("=" + text)[1..] == text;
    }
  }

  /** A line sets a milter key to a value exactly when it is one of the two keys, an equals sign and the value. */
  lemma MilterLineIff(line: string, key: string, value: string)
    ensures MilterLine(line) == Some((key, value)) <==>
            key in ["smtpd_milters", "non_smtpd_milters"] && Sets(line, key, value)
  {
    hide ValueOf, Sets;
    ValueOfIff(line, key, value);
    OneKeyOnly(line);
    if key in ["smtpd_milters", "non_smtpd_milters"] {
      assert key == "smtpd_milters" || key == "non_smtpd_milters";
    }
  }

  lemma OneKeyOnly(line: string)
    ensures ValueOf(line, "smtpd_milters").None? || ValueOf(line, "non_smtpd_milters").None?
  {
    hide TrimStart, Trim;
    FirstChars(line);
  }

  /** A milter endpoint, as the handlers pass it. */
  predicate Endpoint(milter: string) {
    milter != [] && Trimmed(milter) && forall c :: c in [',', '#', '\n', '\r'] ==> c !in milter
  }

  lemma {:induction false} SplitAppended(value: string, last: string)
    requires ',' !in last
    ensures SplitCommas(value + [','] + last) == SplitCommas(value) + [last]
    decreases |value|
  {
    hide SplitCommas, Find;
    var s := value + [','] + last;
    SplitCommasOne(last);
    SplitOnceShape(value, ',');
    match SplitOnce(value, ',')
    case None =>
      SplitCommasCons(value, last);
      SplitCommasOne(value);
    case Some((first, rest)) =>
      SplitCommasCons(first, rest + [','] + last);
      SplitCommasCons(first, rest);
      assert s == first + [','] + (rest + [','] + last);
      SplitAppended(rest, last);
      assert [first] + (SplitCommas(rest) + [last]) == [first] + SplitCommas(rest) + [last];
  }

  /** The milters already configured stay, in order, and the new one comes last. */
  lemma ExtendedEntries(value: string, milter: string)
    requires Endpoint(milter)
    ensures Entries(Extended(value, milter)) == (if value == [] then [] else Entries(value)) + [milter]
  {
    hide Trim, SplitCommas;
    assert ',' in [',', '#', '\n', '\r'];
    if value == [] {
      SplitCommasOne(milter);
      TrimCore([], milter, []);
      assert [] + milter + [] == milter;
    } else {
      SplitAppended(value, " " + milter);
      assert value + [','] + (" " + milter) == value + ", " + milter;
      TrimCore(" ", milter, []);
      assert " " + milter + [] == " " + milter;
    }
  }

  lemma ExtendedIsTrimmed(value: string, milter: string)
    requires Endpoint(milter) && Trimmed(value)
    ensures Extended(value, milter) != [] && Trimmed(Extended(value, milter))
  {
  }

  lemma SetsValue(key: string, value: string)
    requires Trimmed(value)
    ensures ValueOf(key + " = " + value, key) == Some(value)
  {
    var line := key + " = " + value;
    assert line[..|key|] == key && line[|key|..] == " = " + value;
    TrimStartCore(" ", "= " + value);
    assert " " + ("= " + value) == " = " + value;
    TrimCore(" ", value, []);
    assert ("= " + value)[1..] == " " + value + [];
  }

  lemma FirstChars(line: string)
    ensures ValueOf(line, SMTPD_KEY).Some? ==> line != [] && line[0] == 's'
    ensures ValueOf(line, NON_SMTPD_KEY).Some? ==> line != [] && line[0] == 'n'
  {
    if StartsWith(line, SMTPD_KEY) {
      assert line[..|SMTPD_KEY|][0] == 's';
    }
    if StartsWith(line, NON_SMTPD_KEY) {
      assert line[..|NON_SMTPD_KEY|][0] == 'n';
    }
  }

  lemma ReadsBack(key: string, value: string)
    requires key in [SMTPD_KEY, NON_SMTPD_KEY] && Trimmed(value)
    ensures MilterLine(key + " = " + value) == Some((key, value))
  {
    hide ValueOf;
    SetsValue(key, value);
    FirstChars(key + " = " + value);
    assert (key + " = " + value)[0] == key[0];
  }

  lemma MilterLineShape(line: string)
    requires MilterLine(line).Some?
    ensures var (key, value) := MilterLine(line).value;
            key in [SMTPD_KEY, NON_SMTPD_KEY] && ValueOf(line, key) == Some(value) && Trimmed(value)
  {
    hide Trim, TrimStart;
    var (key, value) := MilterLine(line).value;
    var _, _ := TrimShape(TrimStart(line[|key|..])[1..]);
  }

  lemma ExtendedText(value: string, milter: string)
    ensures Extended(value, milter) == if value == "" then milter else value + ", " + milter
  {
  }

  /**
    An edited line sets the same key, and its list is the old one (when the milter was in it) or the old
    one followed by the milter.
   */
  lemma LineKeepsMilters(line: string, milter: string)
    requires Endpoint(milter) && MilterLine(line).Some?
    ensures MilterLine(WithMilter(line, milter)).Some?
    ensures var (key, value) := MilterLine(line).value;
            var (key', value') := MilterLine(WithMilter(line, milter)).value;
            && key' == key && milter in Entries(value')
            && Entries(value') == if milter in Entries(value) then Entries(value)
                                  else (if value == [] then [] else Entries(value)) + [milter]
    ensures var (key, value) := MilterLine(line).value;
            WithMilter(line, milter) == if milter in Entries(value) then line
                                        else if value == "" then key + " = " + milter
                                        else key + " = " + (value + ", " + milter)
  {
    hide ValueOf, Entries, Extended, MilterLine, Endpoint;
    MilterLineShape(line);
    var (key, value) := MilterLine(line).value;
    ExtendedText(value, milter);
    if milter !in Entries(value) {
      ExtendedIsTrimmed(value, milter);
      ReadsBack(key, Extended(value, milter));
      ExtendedEntries(value, milter);
    }
  }

  // ------------------------------------------------------------ the whole file

  /** The lines of the edited file that end in a line feed. */
  function TerminatedPart(text: string, milter: string): seq<string> {
    var lines := WithMilters(Lines(text), milter);
    if EndsWithLf(text) || lines == [] then lines else lines[..|lines| - 1]
  }

  /** A text that does not end in a line feed has a last line that is not blank. */
  lemma {:induction false} LastLine(text: string)
    requires text != [] && !EndsWithLf(text)
    ensures Lines(text) != [] && Lines(text)[|Lines(text)| - 1] != []
    decreases |text|
  {
    hide Find;
    match Find(text, ['\n'])
    case None =>
    case Some(i) =>
      NoNewlineBefore(text, i);
      LastLine(text[i + 1..]);
  }

  /** A line the edit leaves alone. */
  predicate Settled(line: string, milter: string) {
    MilterLine(line).Some? ==> milter in Entries(MilterLine(line).value.1)
  }

  lemma Unchanged(lines: seq<string>, milter: string)
    requires forall k :: 0 <= k < |lines| ==> Settled(lines[k], milter)
    ensures WithMilters(lines, milter) == lines
  {
    hide MilterLine, Entries;
    var edited := WithMilters(lines, milter);
    assert forall k :: 0 <= k < |lines| ==> Settled(lines[k], milter) && edited[k] == lines[k];
  }

  lemma {:induction false} TrimEndDropsLast(s: string)
    requires s != [] && IsWs(s[|s| - 1])
    ensures Trim(s) == Trim(s[..|s| - 1])
  {
    TrimStartDropsLast(s);
    if TrimStart(s) == [] {
      assert TrimStart(s[..|s| - 1]) == [];
    } else {
      var t := TrimStart(s);
      assert t[|t| - 1] == s[|s| - 1];
    }
  }

  lemma {:induction false} TrimStartDropsLast(s: string)
    requires s != [] && IsWs(s[|s| - 1])
    ensures TrimStart(s) == [] ==> TrimStart(s[..|s| - 1]) == []
    ensures TrimStart(s) != [] ==>
              && TrimStart(s)[|TrimStart(s)| - 1] == s[|s| - 1] && |TrimStart(s)| > 1
              && TrimStart(s[..|s| - 1]) == TrimStart(s)[..|TrimStart(s)| - 1]
  {
    if IsWs(s[0]) && |s| > 1 {
      TrimStartDropsLast(s[1..]);
      assert s[..|s| - 1][1..] == s[1..][..|s[1..]| - 1];
    } else if |s| == 1 {
      assert s[1..] == [] && s[..0] == [];
    }
  }

  /** White space at the end of a line means nothing to the reader of milter lists. */
  lemma ValueIgnoresCr(line: string, key: string)
    requires key in [SMTPD_KEY, NON_SMTPD_KEY] && EndsWithCr(line)
    ensures ValueOf(StripCr(line), key) == ValueOf(line, key)
  {
    hide Trim, TrimStart;
    var n := |line| - 1;
    assert key[|key| - 1] == 's';
    if |key| == |line| {
      assert line[..|key|][n] == '\r';
    } else if StartsWith(line, key) {
      assert line[..n][..|key|] == line[..|key|];
      var rest := line[|key|..];
      assert rest != [] && rest[|rest| - 1] == '\r';
      TrimStartDropsLast(rest);
      assert line[..n][|key|..] == rest[..|rest| - 1];
      var t := TrimStart(rest);
      if t != [] && t[0] == '=' {
        TrimEndDropsLast(t[1..]);
        assert t[..|t| - 1][1..] == t[1..][..|t[1..]| - 1];
      }
    } else if |key| < |line| {
      assert line[..n][..|key|] == line[..|key|];
    }
  }

  lemma SettledStripped(line: string, milter: string)
    requires Settled(line, milter)
    ensures Settled(StripCr(line), milter)
    ensures MilterLine(StripCr(line)) == MilterLine(line)
  {
    hide ValueOf, Entries;
    if EndsWithCr(line) {
      ValueIgnoresCr(line, SMTPD_KEY);
      ValueIgnoresCr(line, NON_SMTPD_KEY);
    }
  }

  lemma StaysOneLine(line: string, milter: string)
    requires OneLine(line) && Endpoint(milter)
    ensures OneLine(WithMilter(line, milter)) && (line != [] ==> WithMilter(line, milter) != [])
  {
    hide Entries, Trim, TrimStart, MilterLine;
    assert '\n' in [',', '#', '\n', '\r'];
    if MilterLine(line).Some? {
      MilterLineShape(line);
      var (key, value) := MilterLine(line).value;
      var rest := line[|key|..];
      TrimKeepsOut(rest, '\n');
      TrimKeepsOut(TrimStart(rest)[1..], '\n');
    }
  }

  lemma {:induction false} JoinSplit(lines: seq<string>)
    requires lines != []
    ensures Join(lines) == Terminated(lines[..|lines| - 1]) + lines[|lines| - 1]
  {
    if |lines| > 1 {
      JoinSplit(lines[1..]);
      assert lines[..|lines| - 1][1..] == lines[1..][..|lines| - 2];
    }
  }

  lemma TerminatedEndsWithLf(lines: seq<string>)
    requires lines != []
    ensures EndsWithLf(Terminated(lines))
  {
    TerminatedIsJoin(lines);
  }

  /** The unterminated end of an edited file. */
  function Remainder(text: string, milter: string): string {
    var lines := WithMilters(Lines(text), milter);
    if EndsWithLf(text) || lines == [] then [] else lines[|lines| - 1]
  }

  lemma AddedShape(text: string, milter: string)
    requires Endpoint(milter) && Added(text, milter).Some?
    ensures Added(text, milter).value == Terminated(TerminatedPart(text, milter)) + Remainder(text, milter)
    ensures AllOneLine(TerminatedPart(text, milter)) && OneLine(Remainder(text, milter))
    ensures EndsWithLf(text) <==> Remainder(text, milter) == []
    ensures EndsWithLf(text) ==> TerminatedPart(text, milter) != []
  {
    hide Lines, WithMilter, Endpoint, MilterLine;
    var lines := Lines(text);
    var m := WithMilters(lines, milter);
    forall k | 0 <= k < |lines| ensures OneLine(m[k]) && (lines[k] != [] ==> m[k] != []) {
      assert OneLine(lines[k]);
      StaysOneLine(lines[k], milter);
    }
    if EndsWithLf(text) {
      TerminatedIsJoin(m);
      assert Terminated(m) + [] == Terminated(m);
    } else {
      JoinSplit(m);
      assert Join(m) + "" == Join(m);
      LinesSingle([]);
      LastLine(text);
    }
  }

  /** The lines of an edited file, read again. */
  lemma AddedLines(text: string, milter: string)
    requires Endpoint(milter) && Added(text, milter).Some?
    ensures var lines := WithMilters(Lines(text), milter);
            var again := Lines(Added(text, milter).value);
            && |again| == |lines|
            && (forall k :: 0 <= k < |lines| ==> again[k] == lines[k] || again[k] == StripCr(lines[k]))
            && again == StripAll(TerminatedPart(text, milter))
                        + (if EndsWithLf(text) then [] else [Remainder(text, milter)])
  {
    hide Lines, WithMilter, Endpoint, MilterLine;
    AddedShape(text, milter);
    LinesOfAnyTerminated(TerminatedPart(text, milter), Remainder(text, milter));
    LinesSingle(Remainder(text, milter));
  }

  lemma AllSettled(text: string, milter: string)
    requires Endpoint(milter) && Added(text, milter).Some?
    ensures var again := Lines(Added(text, milter).value);
            HasMilterLine(again) && forall k :: 0 <= k < |again| ==> Settled(again[k], milter)
  {
    hide Lines, Endpoint, MilterLine, Entries, Join, TerminatedPart;
    AddedLines(text, milter);
    var lines := Lines(text);
    var edited, again := WithMilters(lines, milter), Lines(Added(text, milter).value);
    forall k | 0 <= k < |again|
      ensures Settled(again[k], milter) && (MilterLine(lines[k]).Some? ==> MilterLine(again[k]).Some?)
    {
      if MilterLine(lines[k]).Some? {
        LineKeepsMilters(lines[k], milter);
      }
      assert edited[k] == WithMilter(lines[k], milter);
      SettledStripped(edited[k], milter);
    }
    var k :| 0 <= k < |lines| && MilterLine(lines[k]).Some?;
    assert MilterLine(again[k]).Some?;
  }

  lemma TwiceIffNoCrLeft(text: string, milter: string)
    requires Endpoint(milter) && Added(text, milter).Some?
    ensures Added(Added(text, milter).value, milter) == Added(text, milter) <==> NoCr(TerminatedPart(text, milter))
  {
    hide Lines, Endpoint, MilterLine, WithMilter, TerminatedPart, Remainder, HasMilterLine, Settled;
    var once := Added(text, milter).value;
    var part, rest := TerminatedPart(text, milter), Remainder(text, milter);
    var again := Lines(once);
    AddedShape(text, milter);
    AddedLines(text, milter);
    AllSettled(text, milter);
    Unchanged(again, milter);
    StrippingShortens(part);
    if EndsWithLf(text) {
      TerminatedEndsWithLf(part);
      assert once == Terminated(part);
      assert again == StripAll(part);
      TerminatedIsJoin(again);
    } else {
      assert once[|once| - 1] == rest[|rest| - 1];
      JoinSplit(again);
      assert again[..|again| - 1] == StripAll(part);
      assert Join(again) + "" == Join(again);
    }
  }

  /** The lines of a text that a line feed ends. */
  function TerminatedLines(text: string): seq<string> {
    var lines := Lines(text);
    if EndsWithLf(text) || lines == [] then lines else lines[..|lines| - 1]
  }

  predicate LacksMilter(line: string, milter: string) {
    MilterLine(line).Some? && milter !in Entries(MilterLine(line).value.1)
  }

  lemma EndsTrimmed(a: string, b: string)
    requires b != [] && Trimmed(b)
    ensures !EndsWithCr(a + b)
  {
    assert (a + b)[|a + b| - 1] == b[|b| - 1];
  }

  /** An edit leaves a final carriage return on a line unless it rewrites that line. */
  lemma KeepsCrIff(line: string, milter: string)
    requires Endpoint(milter)
    ensures EndsWithCr(WithMilter(line, milter)) <==> EndsWithCr(line) && !LacksMilter(line, milter)
  {
    hide MilterLine, Entries, Extended, Endpoint;
    if LacksMilter(line, milter) {
      MilterLineShape(line);
      var (key, value) := MilterLine(line).value;
      ExtendedIsTrimmed(value, milter);
      EndsTrimmed(key + " = ", Extended(value, milter));
    }
  }

  /**
    Adding a milter twice gives what adding it once gives exactly when every terminated line of the text that
    still ends in a carriage return is a milter line that the milter is added to: from any other, `lines`
    drops one more on each pass.
   */
  lemma AddedTwiceIff(text: string, milter: string)
    requires Endpoint(milter) && Added(text, milter).Some?
    ensures Added(Added(text, milter).value, milter) == Added(text, milter) <==>
            forall k :: 0 <= k < |TerminatedLines(text)| && EndsWithCr(TerminatedLines(text)[k]) ==>
              LacksMilter(TerminatedLines(text)[k], milter)
  {
    hide Lines, WithMilter, Endpoint, Added, LacksMilter, EndsWithCr;
    TwiceIffNoCrLeft(text, milter);
    var before, after := TerminatedLines(text), TerminatedPart(text, milter);
    assert |before| == |after|;
    forall k | 0 <= k < |before|
      ensures EndsWithCr(after[k]) <==> EndsWithCr(before[k]) && !LacksMilter(before[k], milter)
    {
      assert after[k] == WithMilter(before[k], milter);
      KeepsCrIff(before[k], milter);
    }
  }

  lemma TwoLines(a: string, b: string)
    requires OneLine(a) && OneLine(b) && !EndsWithCr(b)
    ensures Lines(a + ['\n'] + (b + ['\n'])) == [StripCr(a), b]
    ensures EndsWithLf(a + ['\n'] + (b + ['\n']))
  {
    hide Lines;
    LinesCons(a, b + ['\n']);
    LinesCons(b, []);
    LinesSingle([]);
    assert b + ['\n'] + [] == b + ['\n'];
    assert [b] + [] == [b];
  }

  lemma EndpointN()
    ensures Endpoint("n")
  {
  }

  lemma OneMilter()
    ensures MilterLine("smtpd_milters = m") == Some((SMTPD_KEY, "m"))
  {
    hide MilterLine;
    ReadsBack(SMTPD_KEY, "m");
    assert SMTPD_KEY + " = " + "m" == "smtpd_milters = m";
  }

  /** A line that ends in two carriage returns loses one of them each time. */
  lemma SecondAddDiffers()
    ensures var text := "x\r\r" + ['\n'] + ("smtpd_milters = m" + ['\n']);
            Added(text, "n").Some? && Added(Added(text, "n").value, "n") != Added(text, "n")
  {
    var a, b := "x\r\r", "smtpd_milters = m";
    var text := a + ['\n'] + (b + ['\n']);
    assert StripCr(a) == "x\r";
    hide Entries, MilterLine, Lines, Join, WithMilter, WithMilters, Endpoint;
    assert Endpoint("n") by { EndpointN(); }
    OneMilter();
    TwoLines(a, b);
    assert MilterLine(Lines(text)[1]).Some?;
    assert TerminatedLines(text)[0] == "x\r" && EndsWithCr(TerminatedLines(text)[0]);
    assert MilterLine("x\r").None? by { NoMilterLine("x\r"); }
    AddedTwiceIff(text, "n");
  }

  lemma NoMilterLine(line: string)
    requires line != [] && line[0] != 's' && line[0] != 'n'
    ensures MilterLine(line).None?
  {
    hide ValueOf;
    FirstChars(line);
  }
}
