/**
  Postfix's `main.cf` as the panel edits it: independent handlers filter lines out and append a block,
  other handlers read single values back, and nothing else is stored. The text refines a record of four
  readings over any sequence of edits.
 */
module MainCf {
  import opened Text
  import opened Milters

  const RELAY_TITLE := " DockPanel relay"
  const RATE_TITLE := " DockPanel rate limit"
  const RELAY_MARK := "#" + RELAY_TITLE
  const RATE_MARK := "#" + RATE_TITLE

  /** The values that the status handlers look up. */
  datatype Reader = Relay | Rate | Inbound | Outbound

  /** The handlers that filter lines out. */
  datatype Editor = RelayEditor | RateEditor | TlsEditor

  predicate Reads(r: Reader, line: string) {
    match r
    case Relay => StartsWith(line, "relayhost")
    case Rate => Contains(line, RATE_MARK + ":")
    case Inbound => StartsWith(line, "smtpd_tls_security_level")
    case Outbound => StartsWith(line, "smtp_tls_security_level")
  }

  predicate Drops(e: Editor, line: string) {
    match e
    case RelayEditor =>
      || StartsWith(line, "relayhost") || StartsWith(line, "smtp_sasl_")
      || StartsWith(line, "smtp_tls_") || Contains(line, RELAY_MARK)
    case RateEditor =>
      || StartsWith(line, "smtp_destination_rate_delay") || StartsWith(line, "smtp_extra_recipient_limit")
      || Contains(line, RATE_MARK)
    case TlsEditor =>
      StartsWith(line, "smtpd_tls_security_level") || StartsWith(line, "smtp_tls_security_level")
  }

  function Keeps(e: Editor): string -> bool {
    line => !Drops(e, line)
  }

  /** The line starts with one of the names or holds one of the marks. */
  predicate Touched(line: string, names: seq<string>, marks: seq<string>) {
    || (exists k :: 0 <= k < |names| && StartsWith(line, names[k]))
    || (exists k :: 0 <= k < |marks| && Contains(line, marks[k]))
  }

  lemma TouchedOne(line: string, names: seq<string>, marks: seq<string>)
    ensures names == [] && marks == [] ==> !Touched(line, names, marks)
    ensures names != [] ==>
              (Touched(line, names, marks) <==> StartsWith(line, names[0]) || Touched(line, names[1..], marks))
    ensures names == [] && marks != [] ==>
              (Touched(line, names, marks) <==> Contains(line, marks[0]) || Touched(line, names, marks[1..]))
  {
    hide StartsWith, Contains;
    assert forall k :: 1 <= k < |names| ==> names[k] == names[1..][k - 1];
    assert forall k :: 1 <= k < |marks| ==> marks[k] == marks[1..][k - 1];
  }

  /** What each editor drops of any line at all, spelled out; TLS enforcement drops what the TLS status reads. */
  lemma DropsExactly(line: string)
    ensures Drops(RelayEditor, line) <==> Touched(line, ["relayhost", "smtp_sasl_", "smtp_tls_"], ["# DockPanel relay"])
    ensures Drops(RateEditor, line) <==>
            Touched(line, ["smtp_destination_rate_delay", "smtp_extra_recipient_limit"], ["# DockPanel rate limit"])
    ensures Drops(TlsEditor, line) <==> Touched(line, ["smtpd_tls_security_level", "smtp_tls_security_level"], [])
    ensures Drops(TlsEditor, line) <==> Reads(Inbound, line) || Reads(Outbound, line)
  {
    hide StartsWith, Contains, Touched;
    Marks();
    RelayTouches(line);
    RateTouches(line);
    TlsTouches(line);
  }

  lemma Marks()
    ensures RELAY_MARK == "# DockPanel relay" && RATE_MARK == "# DockPanel rate limit"
  {
  }

  lemma RelayTouches(line: string)
    ensures Touched(line, ["relayhost", "smtp_sasl_", "smtp_tls_"], ["# DockPanel relay"]) <==>
            || StartsWith(line, "relayhost") || StartsWith(line, "smtp_sasl_") || StartsWith(line, "smtp_tls_")
            || Contains(line, "# DockPanel relay")
  {
    hide StartsWith, Contains, Touched;
    var (a, b, c, d) := ("relayhost", "smtp_sasl_", "smtp_tls_", "# DockPanel relay");
    ThreeNames(line, a, b, c, d);
  }

  lemma ThreeNames(line: string, a: string, b: string, c: string, d: string)
    ensures Touched(line, [a, b, c], [d]) <==>
            StartsWith(line, a) || StartsWith(line, b) || StartsWith(line, c) || Contains(line, d)
  {
    hide StartsWith, Contains, Touched;
    TouchedOne(line, [a, b, c], [d]);
    assert [a, b, c][1..] == [b, c];
    TwoNames(line, b, c, [d]);
    TouchedOne(line, [], [d]);
    TouchedOne(line, [], []);
    assert [d][1..] == [];
  }

  lemma TwoNames(line: string, a: string, b: string, marks: seq<string>)
    ensures Touched(line, [a, b], marks) <==> StartsWith(line, a) || StartsWith(line, b) || Touched(line, [], marks)
  {
    hide StartsWith, Contains, Touched;
    TouchedOne(line, [a, b], marks);
    assert [a, b][1..] == [b] && [b][1..] == [];
    TouchedOne(line, [b], marks);
  }

  lemma RateTouches(line: string)
    ensures Touched(line, ["smtp_destination_rate_delay", "smtp_extra_recipient_limit"], ["# DockPanel rate limit"])
            <==>
            || StartsWith(line, "smtp_destination_rate_delay") || StartsWith(line, "smtp_extra_recipient_limit")
            || Contains(line, "# DockPanel rate limit")
  {
    hide StartsWith, Contains, Touched;
    var mark := "# DockPanel rate limit";
    TwoNames(line, "smtp_destination_rate_delay", "smtp_extra_recipient_limit", [mark]);
    TouchedOne(line, [], [mark]);
    TouchedOne(line, [], []);
    assert [mark][1..] == [];
  }

  lemma TlsTouches(line: string)
    ensures Touched(line, ["smtpd_tls_security_level", "smtp_tls_security_level"], []) <==>
            StartsWith(line, "smtpd_tls_security_level") || StartsWith(line, "smtp_tls_security_level")
  {
    hide StartsWith, Contains, Touched;
    TwoNames(line, "smtpd_tls_security_level", "smtp_tls_security_level", []);
    TouchedOne(line, [], []);
  }

  /** Which readings an editor replaces: the outbound level belongs to two of them. */
  predicate Owns(e: Editor, r: Reader) {
    match e
    case RelayEditor => r.Relay? || r.Outbound?
    case RateEditor => r.Rate?
    case TlsEditor => r.Inbound? || r.Outbound?
  }

  // ------------------------------------------------------------------ readings

  /** The first line a reader stops at. */
  function First(r: Reader, lines: seq<string>): (line: Option<string>) {
    if lines == [] then None else if Reads(r, lines[0]) then Some(lines[0]) else First(r, lines[1..])
  }

  /** `split(c).nth(1).unwrap_or("").trim()` */
  function ValueBehind(c: char, line: string): string {
    match SecondField(line, c)
    case None => ""
    case Some(value) => Trim(value)
  }

  function Reading(r: Reader, line: string): string {
    ValueBehind(if r.Rate? then ':' else '=', line)
  }

  function FirstStarting(p: string, lines: seq<string>): (line: Option<string>) {
    if lines == [] then None
    else if StartsWith(lines[0], p) then Some(lines[0])
    else FirstStarting(p, lines[1..])
  }

  /** Line `k` is the first that starts with `p`. */
  predicate StartsFirst(p: string, lines: seq<string>, k: nat) {
    k < |lines| && StartsWith(lines[k], p) && forall j :: 0 <= j < k ==> !StartsWith(lines[j], p)
  }

  lemma {:induction false} FirstStartingAt(p: string, lines: seq<string>, k: nat)
    requires k <= |lines| && forall j :: 0 <= j < k ==> !StartsWith(lines[j], p)
    requires k < |lines| ==> StartsWith(lines[k], p)
    ensures FirstStarting(p, lines) == if k < |lines| then Some(lines[k]) else None
  {
    hide StartsWith;
    if k > 0 {
      FirstStartingAt(p, lines[1..], k - 1);
    }
  }

  function Look(r: Reader, lines: seq<string>): Option<string> {
    match First(r, lines)
    case None => None
    case Some(line) => Some(Reading(r, line))
  }

  /** What the status handlers say about a file. */
  datatype Settings =
    Settings(relay: Option<string>, rate: Option<string>, inbound: Option<string>, outbound: Option<string>)

  function SettingsOf(text: string): Settings {
    var lines := Lines(text);
    Settings(Look(Relay, lines), Look(Rate, lines), Look(Inbound, lines), Look(Outbound, lines))
  }

  // --------------------------------------------------------------------- edits

  datatype Edit =
    | RelaySet(host: string, port: nat, username: string, password: string)
    | RelayRemove
    | RateSet(rate: string)
    | RateRemove
    | TlsSet(inbound: string, outbound: string)
    | MilterAdd(milter: string)

  function RelayEndpoint(host: string, port: nat): string {
    "[" + host + "]:" + Decimal(port)
  }

  function Setting(name: string, value: string): string {
    name + " = " + value
  }

  function RelayBlock(host: string, port: nat): seq<string> {
    [
      RELAY_MARK + " configuration",
      Setting("relayhost", RelayEndpoint(host, port)),
      Setting("smtp_sasl_auth_enable", "yes"),
      Setting("smtp_sasl_password_maps", "hash:/etc/postfix/sasl_passwd"),
      Setting("smtp_sasl_security_options", "noanonymous"),
      Setting("smtp_tls_security_level", "encrypt"),
      Setting("smtp_tls_CAfile", "/etc/ssl/certs/ca-certificates.crt")
    ]
  }

  function PeriodSeconds(period: string): Option<nat> {
    if period == "hour" then Some(3600)
    else if period == "day" then Some(86400)
    else if period == "minute" then Some(60)
    else None
  }

  /** `N/minute`, `N/hour` or `N/day`, N positive: the count and the period. */
  function ParseRate(rate: string): (r: Option<(nat, nat)>)
    ensures r.Some? ==> r.value.0 > 0
  {
    match SplitOnce(rate, '/')
    case None => None
    case Some((count, period)) =>
      match (ParseU32(count), PeriodSeconds(period))
      case (Some(n), Some(seconds)) => if n == 0 then None else Some((n, seconds))
      case _ => None
  }

  function RateBlock(rate: string): seq<string>
    requires ParseRate(rate).Some?
  {
    hide ParseRate;
    var (count, period) := ParseRate(rate).value;
    [
      RATE_MARK + ": " + rate,
      Setting("smtp_destination_rate_delay", Decimal(period / count) + "s"),
      Setting("smtp_extra_recipient_limit", Decimal(if count < 50 then count else 50))
    ]
  }

  const LEVELS := ["may", "encrypt", "none"]

  function TlsBlock(inbound: string, outbound: string): seq<string> {
    [Setting("smtpd_tls_security_level", inbound), Setting("smtp_tls_security_level", outbound)]
  }

  /** The checks a handler makes on a request before it touches the file. */
  predicate Valid(edit: Edit) {
    match edit
    case RelaySet(host, _, username, password) =>
      && host != [] && '\n' !in host && '\r' !in host && '\0' !in host
      && '\n' !in username && '\0' !in username && '\n' !in password && '\0' !in password
    case RateSet(rate) => ParseRate(rate).Some?
    case TlsSet(inbound, outbound) => inbound in LEVELS && outbound in LEVELS
    case _ => true
  }

  /** The text with an editor's lines filtered out. */
  function Cleaned(e: Editor, text: string): string {
    Join(Kept(e, text))
  }

  function Kept(e: Editor, text: string): seq<string> {
    Filter(Keeps(e), Lines(text))
  }

  function Replaced(e: Editor, text: string, block: seq<string>): string {
    Cleaned(e, text) + "\n" + Terminated(block)
  }

  /** The file after one request; a refused one, or a milter with no list to join, leaves it as it was. */
  function Step(text: string, edit: Edit): string {
    if !Valid(edit) then text
    else
      match edit
      case RelaySet(host, port, _, _) => Replaced(RelayEditor, text, RelayBlock(host, port))
      case RelayRemove => Cleaned(RelayEditor, text)
      case RateSet(rate) => Replaced(RateEditor, text, RateBlock(rate))
      case RateRemove => Cleaned(RateEditor, text)
      case TlsSet(inbound, outbound) => Replaced(TlsEditor, text, TlsBlock(inbound, outbound))
      case MilterAdd(milter) => if Added(text, milter).Some? then Added(text, milter).value else text
  }

  function Run(text: string, edits: seq<Edit>): string
    decreases |edits|
  {
    if edits == [] then text else Run(Step(text, edits[0]), edits[1..])
  }

  // ----------------------------------------------------------- the abstract record

  /** What the relay reader makes of an endpoint: it stops at a second `=`. */
  function Reported(host: string, port: nat): string {
    Trim(UpTo(" " + RelayEndpoint(host, port), '='))
  }

  /** An edit on the record of readings. */
  function Apply(s: Settings, edit: Edit): Settings {
    if !Valid(edit) then s
    else
      match edit
      case RelaySet(host, port, _, _) => s.(relay := Some(Reported(host, port)), outbound := Some("encrypt"))
      case RelayRemove => s.(relay := None, outbound := None)
      case RateSet(rate) => s.(rate := Some(rate))
      case RateRemove => s.(rate := None)
      case TlsSet(inbound, outbound) => s.(inbound := Some(inbound), outbound := Some(outbound))
      case MilterAdd(_) => s
  }

  function ApplyAll(s: Settings, edits: seq<Edit>): Settings
    decreases |edits|
  {
    if edits == [] then s else ApplyAll(Apply(s, edits[0]), edits[1..])
  }

  // ------------------------------------------------------------------ tidy files

  predicate Marked(line: string) {
    Contains(line, RELAY_MARK) || Contains(line, RATE_MARK)
  }

  /** The panel's two marker comments stand on lines of their own, and no line ends in a carriage return. */
  predicate TidyLine(line: string) {
    && OneLine(line) && !EndsWithCr(line)
    && (Marked(line) ==> line[0] == '#')
    && !(Contains(line, RELAY_MARK) && Contains(line, RATE_MARK))
  }

  predicate TidyLines(lines: seq<string>) {
    forall k :: 0 <= k < |lines| ==> TidyLine(lines[k])
  }

  predicate Tidy(text: string) {
    TidyLines(Lines(text))
  }

  /** A relay host that holds neither marker; an endpoint for a milter. */
  predicate Plain(edit: Edit) {
    match edit
    case RelaySet(host, _, _, _) => !Marked(host)
    case MilterAdd(milter) => Endpoint(milter)
    case _ => true
  }

  // -------------------------------------------------------------- lines and marks

  lemma LacksHash(s: string)
    requires '#' !in s
    ensures !Marked(s) && !Contains(s, RATE_MARK + ":")
  {
    hide Contains;
    LacksElement(s, RELAY_MARK, '#');
    LacksElement(s, RATE_MARK, '#');
    LacksElement(s, RATE_MARK + ":", '#');
  }

  /** A text without `#` in front adds no mark. */
  lemma MarkAfter(a: string, b: string, p: string)
    requires '#' !in a && p != [] && p[0] == '#'
    ensures Contains(a + b, p) <==> Contains(b, p)
  {
    hide Find;
    if Contains(b, p) {
      ContainsGrows(a, b, [], p);
      assert a + b + [] == a + b;
    }
    if Contains(a + b, p) {
      var i := Find(a + b, p).value;
      assert (a + b)[i] == (a + b)[i..i + |p|][0];
      HasAtConcat(a, b, p, i);
      assert HasAt(b, i - |a|, p);
    }
  }

  /** With its one `#` in front, a text holds a mark exactly when it starts with it. */
  lemma MarkInFront(s: string, p: string)
    requires s != [] && '#' !in s[1..] && p != [] && p[0] == '#'
    ensures Contains(s, p) <==> StartsWith(s, p)
  {
    hide Find;
    assert forall k :: 1 <= k < |s| ==> s[k] == s[1..][k - 1];
    if Contains(s, p) {
      var i := Find(s, p).value;
      assert s[i..i + |p|][0] == s[i];
    }
    if StartsWith(s, p) {
      assert HasAt(s, 0, p);
    }
  }

  lemma RateReadingIsMarked(line: string)
    ensures Contains(line, RATE_MARK + ":") ==> Contains(line, RATE_MARK)
  {
    hide Find;
    var p, q := RATE_MARK + ":", RATE_MARK;
    if Contains(line, p) {
      var i := Find(line, p).value;
      assert line[i..i + |q|] == line[i..i + |p|][..|q|];
      assert HasAt(line, i, q);
    }
  }

  lemma PrefixChars(line: string, p: string)
    requires |p| > 6
    ensures StartsWith(line, p) ==>
            |line| > 6 && line[0] == p[0] && line[4] == p[4] && line[5] == p[5] && line[6] == p[6]
  {
    if StartsWith(line, p) {
      var head := line[..|p|];
      assert line[0] == head[0] && line[4] == head[4] && line[5] == head[5] && line[6] == head[6];
    }
  }

  lemma PrefixOfPrefix(line: string, p: string, q: string)
    requires |q| <= |p| && p[..|q|] == q
    ensures StartsWith(line, p) ==> StartsWith(line, q)
  {
    if StartsWith(line, p) {
      assert line[..|q|] == line[..|p|][..|q|];
    }
  }

  /** What the first characters of the modelled keys tell apart. */
  lemma KeyChars(line: string)
    ensures StartsWith(line, "relayhost") ==> line != [] && line[0] == 'r'
    ensures StartsWith(line, "smtp_sasl_") ==> |line| > 6 && line[0] == 's' && line[4] == '_' && line[5] == 's'
    ensures StartsWith(line, "smtp_tls_") ==> |line| > 6 && line[0] == 's' && line[4] == '_' && line[5] == 't'
    ensures StartsWith(line, "smtp_destination_rate_delay") ==>
            |line| > 6 && line[0] == 's' && line[4] == '_' && line[5] == 'd'
    ensures StartsWith(line, "smtp_extra_recipient_limit") ==>
            |line| > 6 && line[0] == 's' && line[4] == '_' && line[5] == 'e'
    ensures StartsWith(line, "smtpd_tls_security_level") ==>
            |line| > 6 && line[0] == 's' && line[4] == 'd' && line[6] == 't'
    ensures StartsWith(line, "smtp_tls_security_level") ==> StartsWith(line, "smtp_tls_")
  {
    hide StartsWith;
    PrefixChars(line, "relayhost");
    PrefixChars(line, "smtp_sasl_");
    PrefixChars(line, "smtp_tls_");
    PrefixChars(line, "smtp_destination_rate_delay");
    PrefixChars(line, "smtp_extra_recipient_limit");
    PrefixChars(line, "smtpd_tls_security_level");
    PrefixOfPrefix(line, "smtp_tls_security_level", "smtp_tls_");
  }

  /** On a tidy line an editor drops what it owns and no other reading. */
  lemma DropsWhatItOwns(e: Editor, r: Reader, line: string)
    requires TidyLine(line) && Reads(r, line)
    ensures Drops(e, line) <==> Owns(e, r)
  {
    hide StartsWith, Contains;
    KeyChars(line);
    RateReadingIsMarked(line);
  }

  // ------------------------------------------------------------- first occurrences

  lemma BlankReadsNothing(r: Reader)
    ensures !Reads(r, "")
  {
    LacksHash("");
  }

  lemma {:induction false} FirstConcat(r: Reader, a: seq<string>, b: seq<string>)
    ensures First(r, a + b) == if First(r, a).Some? then First(r, a) else First(r, b)
  {
    hide Reads;
    if a == [] {
      assert a + b == b;
    } else {
      assert (a + b)[1..] == a[1..] + b;
      FirstConcat(r, a[1..], b);
    }
  }

  lemma {:induction false} FirstAt(r: Reader, lines: seq<string>, k: nat)
    requires k < |lines| && Reads(r, lines[k]) && forall j :: 0 <= j < k ==> !Reads(r, lines[j])
    ensures First(r, lines) == Some(lines[k])
  {
    hide Reads;
    if k > 0 {
      FirstAt(r, lines[1..], k - 1);
    }
  }

  lemma {:induction false} FirstNone(r: Reader, lines: seq<string>)
    requires forall k :: 0 <= k < |lines| ==> !Reads(r, lines[k])
    ensures First(r, lines) == None
  {
    hide Reads;
    if lines != [] {
      FirstNone(r, lines[1..]);
    }
  }

  /** Filtering removes what the editor owns from a reader's sight and nothing else. */
  lemma {:induction false} FirstKept(e: Editor, r: Reader, lines: seq<string>)
    requires TidyLines(lines)
    ensures First(r, Filter(Keeps(e), lines)) == if Owns(e, r) then None else First(r, lines)
  {
    hide Reads, Drops, Owns, TidyLine;
    if lines != [] {
      assert TidyLine(lines[0]) && forall k :: 0 <= k < |lines[1..]| ==> lines[1..][k] == lines[k + 1];
      FirstKept(e, r, lines[1..]);
      var rest := Filter(Keeps(e), lines[1..]);
      assert ([lines[0]] + rest)[1..] == rest && [] + rest == rest;
      if Reads(r, lines[0]) {
        DropsWhatItOwns(e, r, lines[0]);
      }
    }
  }

  // ----------------------------------------------------------------- whole files

  function WithoutBlankEnd(lines: seq<string>): seq<string> {
    if lines != [] && lines[|lines| - 1] == [] then lines[..|lines| - 1] else lines
  }

  lemma KeptIsTidy(e: Editor, text: string)
    requires Tidy(text)
    ensures TidyLines(Kept(e, text)) && AllOneLine(Kept(e, text)) && NoCr(Kept(e, text))
  {
    hide Lines, Drops, Marked;
    var kept := Kept(e, text);
    forall k | 0 <= k < |kept| ensures TidyLine(kept[k]) {
      var j :| 0 <= j < |Lines(text)| && Lines(text)[j] == kept[k];
    }
    assert forall k :: 0 <= k < |kept| ==> TidyLine(kept[k]);
  }

  lemma BlankIsTidy()
    ensures TidyLine("")
  {
    LacksHash("");
  }

  /** The lines after a filter-and-append edit, and after a filter alone (which loses a blank last line). */
  lemma EditedLines(e: Editor, text: string, block: seq<string>)
    requires Tidy(text) && (TidyLines(block) || (AllOneLine(block) && NoCr(block)))
    ensures Lines(Replaced(e, text, block)) == OrBlank(Kept(e, text)) + block
    ensures Lines(Cleaned(e, text)) == WithoutBlankEnd(Kept(e, text))
    ensures Tidy(Cleaned(e, text)) && (TidyLines(block) ==> Tidy(Replaced(e, text, block)))
  {
    hide Lines, Drops, Marked, Filter;
    KeptIsTidy(e, text);
    BlankIsTidy();
    var kept := Kept(e, text);
    LinesOfJoin(kept);
    LinesOfJoinedThen(kept, Terminated(block));
    assert TidyLines(block) ==> forall k :: 0 <= k < |block| ==> TidyLine(block[k]);
    LinesOfTerminated(block, []);
    LinesSingle([]);
    assert Terminated(block) + [] == Terminated(block) && block + [] == block;
    assert Join(kept) + "\n" + Terminated(block) == Join(kept) + ['\n'] + Terminated(block);
  }

  /** An appended block shows its own readings, and no others. */
  lemma ReplacedLook(e: Editor, r: Reader, text: string, block: seq<string>)
    requires Tidy(text) && TidyLines(block)
    requires Owns(e, r) <==> First(r, block).Some?
    ensures Look(r, Lines(Replaced(e, text, block))) == Look(r, if Owns(e, r) then block else Lines(text))
  {
    hide Lines, Reads, Owns, Drops, Filter, Replaced, TidyLine, Reading;
    EditedLines(e, text, block);
    var kept := Kept(e, text);
    FirstKept(e, r, Lines(text));
    BlankReadsNothing(r);
    assert [""][1..] == [];
    assert First(r, OrBlank(kept)) == First(r, kept);
    FirstConcat(r, OrBlank(kept), block);
  }

  lemma CleanedLook(e: Editor, r: Reader, text: string)
    requires Tidy(text)
    ensures Look(r, Lines(Cleaned(e, text))) == if Owns(e, r) then None else Look(r, Lines(text))
  {
    hide Lines, Reads, Owns, Drops, Filter, Cleaned, TidyLine, Reading;
    EditedLines(e, text, []);
    var kept := Kept(e, text);
    FirstKept(e, r, Lines(text));
    BlankReadsNothing(r);
    assert [""][1..] == [];
    if kept != [] && kept[|kept| - 1] == [] {
      assert kept == kept[..|kept| - 1] + [""];
      FirstConcat(r, kept[..|kept| - 1], [""]);
    }
  }

  // ------------------------------------------------------------- appended blocks

  /** Neither a comment sign nor a line break. */
  predicate PlainText(s: string) {
    '#' !in s && '\n' !in s && '\r' !in s
  }

  lemma PlainLine(line: string)
    requires PlainText(line)
    ensures TidyLine(line) && !Reads(Rate, line)
  {
    hide Contains;
    LacksHash(line);
  }

  lemma ReadingOf(r: Reader, name: string, value: string)
    requires var c := if r.Rate? then ':' else '='; c !in name && c !in value
    requires Trimmed(value)
    ensures Reading(r, name + [if r.Rate? then ':' else '='] + (" " + value)) == value
  {
    hide Trim, UpTo;
    var c := if r.Rate? then ':' else '=';
    FirstOccurrence(name, c, " " + value);
    UpToAll(" " + value, c);
    TrimCore(" ", value, []);
    assert " " + value + [] == " " + value;
  }

  /** What a plain setting is to the readers: only its name counts. */
  lemma SettingFacts(name: string, value: string)
    requires |name| > 6 && PlainText(name) && PlainText(value)
    ensures TidyLine(Setting(name, value)) && !Reads(Rate, Setting(name, value))
    ensures Reads(Relay, Setting(name, value)) ==> name[0] == 'r'
    ensures Reads(Inbound, Setting(name, value)) ==> name[0] == 's' && name[4] == 'd'
    ensures Reads(Outbound, Setting(name, value)) ==> name[0] == 's' && name[4] == '_' && name[5] == 't'
    ensures name == "relayhost" ==> Reads(Relay, Setting(name, value))
    ensures name == "smtpd_tls_security_level" ==> Reads(Inbound, Setting(name, value))
    ensures name == "smtp_tls_security_level" ==> Reads(Outbound, Setting(name, value))
  {
    hide Contains;
    var line := Setting(name, value);
    PlainLine(line);
    KeyChars(line);
    assert line[..|name|] == name;
  }

  lemma SettingReading(r: Reader, name: string, value: string)
    requires !r.Rate? && '=' !in name && '=' !in value && Trimmed(value)
    ensures Reading(r, Setting(name, value)) == value
  {
    hide Reading;
    ReadingOf(r, name + " ", value);
    assert Setting(name, value) == name + " " + ['='] + (" " + value);
  }

  lemma LevelText(level: string)
    requires level in LEVELS
    ensures PlainText(level) && '=' !in level && Trimmed(level)
  {
    assert level == "may" || level == "encrypt" || level == "none";
  }

  /** A line that sets the inbound level is the inbound reader's, and no other's. */
  lemma InboundLine(level: string)
    requires level in LEVELS
    ensures var line := Setting("smtpd_tls_security_level", level);
            && TidyLine(line) && Reading(Inbound, line) == level
            && Reads(Inbound, line) && !Reads(Relay, line) && !Reads(Rate, line) && !Reads(Outbound, line)
  {
    hide Reads, TidyLine, Reading, Setting, Trimmed;
    LevelText(level);
    SettingFacts("smtpd_tls_security_level", level);
    SettingReading(Inbound, "smtpd_tls_security_level", level);
  }

  lemma OutboundLine(level: string)
    requires level in LEVELS
    ensures var line := Setting("smtp_tls_security_level", level);
            && TidyLine(line) && Reading(Outbound, line) == level
            && Reads(Outbound, line) && !Reads(Relay, line) && !Reads(Rate, line) && !Reads(Inbound, line)
  {
    hide Reads, TidyLine, Reading, Setting, Trimmed;
    LevelText(level);
    SettingFacts("smtp_tls_security_level", level);
    SettingReading(Outbound, "smtp_tls_security_level", level);
  }

  /** The TLS block: its two readings, and nothing the other readers see. */
  lemma TlsBlockReads(inbound: string, outbound: string)
    requires inbound in LEVELS && outbound in LEVELS
    ensures var block := TlsBlock(inbound, outbound);
            && TidyLines(block) && First(Relay, block).None? && First(Rate, block).None?
            && First(Inbound, block).Some? && Look(Inbound, block) == Some(inbound)
            && First(Outbound, block).Some? && Look(Outbound, block) == Some(outbound)
  {
    hide Reading, Reads, Setting, TidyLine, First;
    var block := TlsBlock(inbound, outbound);
    InboundLine(inbound);
    OutboundLine(outbound);
    FirstAt(Inbound, block, 0);
    FirstAt(Outbound, block, 1);
    FirstNone(Relay, block);
    FirstNone(Rate, block);
  }

  /** A rate the handler accepts is plain text, without a colon. */
  lemma RateText(rate: string)
    requires ParseRate(rate).Some?
    ensures PlainText(rate) && ':' !in rate && Trimmed(rate)
  {
    hide SplitOnce, DigitsValue;
    SplitOnceShape(rate, '/');
    var (count, period) := SplitOnce(rate, '/').value;
    CountText(count);
    assert period == "hour" || period == "day" || period == "minute";
    assert rate[0] == count[0] && rate[|rate| - 1] == period[|period| - 1];
  }

  lemma CountText(count: string)
    requires ParseU32(count).Some?
    ensures count != [] && forall k :: 0 <= k < |count| ==> IsDigit(count[k]) || count[k] == '+'
  {
    var plus := count[0] == '+';
    var digits := if plus then count[1..] else count;
    assert DigitsValue(digits).Some?;
    assert plus ==> forall k :: 1 <= k < |count| ==> count[k] == digits[k - 1];
  }

  lemma DiffersFrom(line: string, p: string, k: nat)
    requires k < |line| && k < |p| && line[k] != p[k]
    ensures !StartsWith(line, p)
  {
    if |p| <= |line| {
      assert line[..|p|][k] == line[k];
    }
  }

  /** What a comment is to the readers and editors. */
  lemma CommentFacts(rest: string)
    requires PlainText(rest)
    ensures var line := "#" + rest;
            && !Reads(Relay, line) && !Reads(Inbound, line) && !Reads(Outbound, line)
            && OneLine(line) && !EndsWithCr(line)
            && (Contains(line, RELAY_MARK) <==> StartsWith(line, RELAY_MARK))
            && (Contains(line, RATE_MARK) <==> StartsWith(line, RATE_MARK))
            && (Contains(line, RATE_MARK + ":") <==> StartsWith(line, RATE_MARK + ":"))
  {
    hide Contains, StartsWith;
    var line := "#" + rest;
    assert line[1..] == rest;
    MarkInFront(line, RELAY_MARK);
    MarkInFront(line, RATE_MARK);
    MarkInFront(line, RATE_MARK + ":");
    KeyChars(line);
  }

  lemma RelayComment()
    ensures TidyLine(RELAY_MARK + " configuration") && forall r :: !Reads(r, RELAY_MARK + " configuration")
  {
    hide Contains, StartsWith;
    var line, rest := RELAY_MARK + " configuration", RELAY_TITLE + " configuration";
    assert line == "#" + rest;
    CommentFacts(rest);
    DiffersFrom(line, RATE_MARK, 13);
    RateReadingIsMarked(line);
  }

  lemma RateCommentReading(rate: string)
    requires ':' !in rate && Trimmed(rate)
    ensures Reading(Rate, RATE_MARK + ": " + rate) == rate
  {
    hide Reading;
    ReadingOf(Rate, RATE_MARK, rate);
    assert RATE_MARK + ": " + rate == RATE_MARK + [':'] + (" " + rate);
  }

  lemma StartsWithFirst(a: string, b: string)
    ensures StartsWith(a + b, a)
  {
  }

  lemma RateComment(rate: string)
    requires PlainText(rate)
    ensures var line := RATE_MARK + ": " + rate;
            && TidyLine(line) && Reads(Rate, line)
            && !Reads(Relay, line) && !Reads(Inbound, line) && !Reads(Outbound, line)
  {
    hide Contains, StartsWith;
    var line, rest := RATE_MARK + ": " + rate, RATE_TITLE + ": " + rate;
    assert line == "#" + rest;
    CommentFacts(rest);
    StartsWithFirst(RATE_MARK + ":", " " + rate);
    assert line == RATE_MARK + ":" + (" " + rate);
    PrefixOfPrefix(line, RATE_MARK + ":", RATE_MARK);
    DiffersFrom(line, RELAY_MARK, 13);
  }

  lemma DigitsText(n: nat)
    ensures PlainText(Decimal(n)) && PlainText(Decimal(n) + "s") && Decimal(n) != [] && ']' !in Decimal(n)
            && '=' !in Decimal(n)
    ensures !IsWs(Decimal(n)[|Decimal(n)| - 1])
  {
  }

  /** The two settings below a rate comment. */
  lemma DelayLine(delay: string)
    requires PlainText(delay)
    ensures var line := Setting("smtp_destination_rate_delay", delay); TidyLine(line) && Unread(line)
  {
    hide Reads, TidyLine, Setting;
    SettingFacts("smtp_destination_rate_delay", delay);
  }

  lemma LimitLine(limit: string)
    requires PlainText(limit)
    ensures var line := Setting("smtp_extra_recipient_limit", limit); TidyLine(line) && Unread(line)
  {
    hide Reads, TidyLine, Setting;
    SettingFacts("smtp_extra_recipient_limit", limit);
  }

  /** No status handler stops at the line. */
  predicate Unread(line: string) {
    !Reads(Relay, line) && !Reads(Rate, line) && !Reads(Inbound, line) && !Reads(Outbound, line)
  }

  lemma RateBlockReads(rate: string)
    requires ParseRate(rate).Some?
    ensures var block := RateBlock(rate);
            && TidyLines(block)
            && First(Relay, block).None? && First(Inbound, block).None? && First(Outbound, block).None?
            && First(Rate, block).Some? && Look(Rate, block) == Some(rate)
  {
    hide Reading, Reads, Setting, TidyLine, ParseRate, Decimal, First, PlainText, Trimmed;
    var block := RateBlock(rate);
    var (count, period) := ParseRate(rate).value;
    var limit := if count < 50 then count else 50;
    RateText(rate);
    RateComment(rate);
    RateCommentReading(rate);
    DigitsText(period / count);
    DigitsText(limit);
    DelayLine(Decimal(period / count) + "s");
    LimitLine(Decimal(limit));
    FirstAt(Rate, block, 0);
    FirstNone(Relay, block);
    FirstNone(Inbound, block);
    FirstNone(Outbound, block);
  }

  /** The mark of a relay line is the host's. */
  lemma RelayHostMarks(host: string, digits: string, p: string)
    requires p in [RELAY_MARK, RATE_MARK] && '#' !in digits
    ensures Contains("relayhost = [" + (host + ("]:" + digits)), p) <==> Contains(host, p)
  {
    hide Contains;
    assert p == RELAY_MARK || p == RATE_MARK;
    LacksHash("]:" + digits);
    MarkAfter("relayhost = [", host + ("]:" + digits), p);
    ContainsAcross(host, "]:" + digits, p);
  }

  lemma RelayHostReading(host: string, port: nat)
    ensures Reading(Relay, Setting("relayhost", RelayEndpoint(host, port))) == Reported(host, port)
  {
    hide Trim, UpTo, RelayEndpoint;
    FirstOccurrence("relayhost ", '=', " " + RelayEndpoint(host, port));
    assert Setting("relayhost", RelayEndpoint(host, port)) == "relayhost " + ['='] + (" " + RelayEndpoint(host, port));
  }

  lemma RelayHostLine(host: string, port: nat)
    requires !Marked(host) && '\n' !in host && '\r' !in host
    ensures var line := Setting("relayhost", RelayEndpoint(host, port));
            && TidyLine(line) && Reads(Relay, line)
            && !Reads(Rate, line) && !Reads(Inbound, line) && !Reads(Outbound, line)
  {
    hide Contains, Decimal;
    var line := Setting("relayhost", RelayEndpoint(host, port));
    DigitsText(port);
    assert line == "relayhost = [" + (host + ("]:" + Decimal(port)));
    RelayHostMarks(host, Decimal(port), RELAY_MARK);
    RelayHostMarks(host, Decimal(port), RATE_MARK);
    RateReadingIsMarked(line);
    assert line[..9] == "relayhost";
    OnlyRelay(line);
  }

  lemma OnlyRelay(line: string)
    requires Reads(Relay, line)
    ensures !Reads(Inbound, line) && !Reads(Outbound, line)
  {
    hide StartsWith;
    KeyChars(line);
  }

  lemma SaslSetting(name: string, value: string)
    requires |name| > 6 && PlainText(name) && PlainText(value) && name[0] == 's' && name[4] == '_' && name[5] == 's'
    ensures TidyLine(Setting(name, value)) && forall r :: !Reads(r, Setting(name, value))
  {
    hide Reads, TidyLine, Setting, PlainText;
    SettingFacts(name, value);
    forall r ensures !Reads(r, Setting(name, value)) {
      match r {
        case Relay =>
        case Rate =>
        case Inbound =>
        case Outbound =>
      }
    }
  }

  const CA_FILE := Setting("smtp_tls_CAfile", "/etc/ssl/certs/ca-certificates.crt")

  lemma NotOutbound(line: string)
    requires !StartsWith(line, "smtp_tls_security_level")
    ensures !Reads(Outbound, line)
  {
  }

  lemma CaFile()
    ensures TidyLine(CA_FILE) && forall r :: !Reads(r, CA_FILE)
  {
    hide Reads, TidyLine;
    SettingFacts("smtp_tls_CAfile", "/etc/ssl/certs/ca-certificates.crt");
    assert CA_FILE[9] == 'C';
    DiffersFrom(CA_FILE, "smtp_tls_security_level", 9);
    assert !Reads(Outbound, CA_FILE) by { NotOutbound(CA_FILE); }
    forall r ensures !Reads(r, CA_FILE) {
      match r {
        case Relay =>
        case Rate =>
        case Inbound =>
        case Outbound =>
      }
    }
  }

  lemma SaslSettings()
    ensures var (a, b, c) := (Setting("smtp_sasl_auth_enable", "yes"),
                              Setting("smtp_sasl_password_maps", "hash:/etc/postfix/sasl_passwd"),
                              Setting("smtp_sasl_security_options", "noanonymous"));
            TidyLine(a) && TidyLine(b) && TidyLine(c) && forall r :: !Reads(r, a) && !Reads(r, b) && !Reads(r, c)
  {
    hide Reads, TidyLine, Setting;
    SaslSetting("smtp_sasl_auth_enable", "yes");
    SaslSetting("smtp_sasl_password_maps", "hash:/etc/postfix/sasl_passwd");
    SaslSetting("smtp_sasl_security_options", "noanonymous");
  }

  lemma RelayBlockReads(host: string, port: nat)
    requires !Marked(host) && '\n' !in host && '\r' !in host
    ensures var block := RelayBlock(host, port);
            && TidyLines(block) && First(Rate, block).None? && First(Inbound, block).None?
            && First(Relay, block).Some? && Look(Relay, block) == Some(Reported(host, port))
            && First(Outbound, block).Some? && Look(Outbound, block) == Some("encrypt")
  {
    hide Reading, Reads, Setting, TidyLine, First, PlainText, RelayEndpoint, Reported, Marked;
    var block := RelayBlock(host, port);
    RelayComment();
    RelayHostLine(host, port);
    RelayHostReading(host, port);
    SaslSettings();
    OutboundLine("encrypt");
    CaFile();
    FirstAt(Relay, block, 1);
    FirstAt(Outbound, block, 5);
    FirstNone(Rate, block);
    FirstNone(Inbound, block);
  }

  // ------------------------------------------------------------------ milter lines

  lemma MilterLineChars(line: string)
    requires MilterLine(line).Some?
    ensures line != [] && line[0] != '#' && line[0] != 'r'
    ensures line[0] == 's' ==> |line| > 6 && line[4] == 'd' && line[6] == 'm'
  {
    PrefixChars(line, SMTPD_KEY);
    PrefixChars(line, NON_SMTPD_KEY);
  }

  lemma MilterLineUnread(line: string)
    requires MilterLine(line).Some? && TidyLine(line)
    ensures forall r :: !Reads(r, line)
  {
    hide MilterLine, StartsWith, Contains;
    MilterLineChars(line);
    KeyChars(line);
    RateReadingIsMarked(line);
  }

  /** A milter line's value is part of the line. */
  lemma ValueInside(line: string) returns (pre: string, post: string)
    requires MilterLine(line).Some?
    ensures line == pre + MilterLine(line).value.1 + post
  {
    hide Trim, TrimStart;
    MilterLineShape(line);
    var (key, value) := MilterLine(line).value;
    var rest := line[|key|..];
    var v := TrimStartShape(rest);
    var w, u := TrimShape(TrimStart(rest)[1..]);
    pre, post := key + v + "=" + w, u;
    assert line == key + rest && TrimStart(rest) == "=" + TrimStart(rest)[1..];
  }

  lemma ExtendedIsUnmarked(key: string, value: string, milter: string)
    requires Endpoint(milter) && !Marked(value) && '#' !in key
    ensures !Marked(key + " = " + Extended(value, milter))
  {
    hide Contains;
    assert '#' in [',', '#', '\n', '\r'];
    LacksHash(milter);
    LacksHash(", " + milter);
    forall p | p == RELAY_MARK || p == RATE_MARK ensures !Contains(key + " = " + Extended(value, milter), p) {
      ContainsAcross(value, ", " + milter, p);
      assert value + (", " + milter) == value + ", " + milter;
      MarkAfter(key + " = ", Extended(value, milter), p);
    }
  }

  lemma UnmarkedInside(pre: string, s: string, post: string)
    requires !Marked(pre + s + post)
    ensures !Marked(s)
  {
    hide Contains;
    if Contains(s, RELAY_MARK) {
      ContainsGrows(pre, s, post, RELAY_MARK);
    }
    if Contains(s, RATE_MARK) {
      ContainsGrows(pre, s, post, RATE_MARK);
    }
  }

  lemma ValueIsUnmarked(line: string)
    requires TidyLine(line) && MilterLine(line).Some?
    ensures !Marked(line) && !Marked(MilterLine(line).value.1)
  {
    hide MilterLine, Contains;
    MilterLineChars(line);
    var pre, post := ValueInside(line);
    UnmarkedInside(pre, MilterLine(line).value.1, post);
  }

  lemma EditedMilterIsTidy(line: string, milter: string)
    requires TidyLine(line) && MilterLine(line).Some? && Endpoint(milter)
    ensures TidyLine(WithMilter(line, milter))
  {
    hide MilterLine, Contains, Entries, Extended, Trimmed, ValueOf;
    StaysOneLine(line, milter);
    MilterLineShape(line);
    ValueIsUnmarked(line);
    var (key, value) := MilterLine(line).value;
    ExtendedIsUnmarked(key, value, milter);
    ExtendedIsTrimmed(value, milter);
    EndsTrimmed(key + " = ", Extended(value, milter));
  }

  /** Adding a milter to a tidy line leaves it tidy, and changes no line that a reader looks for. */
  lemma MilterKeepsTidy(line: string, milter: string)
    requires TidyLine(line) && Endpoint(milter)
    ensures TidyLine(WithMilter(line, milter))
    ensures MilterLine(line).Some? <==> MilterLine(WithMilter(line, milter)).Some?
    ensures MilterLine(line).None? ==> WithMilter(line, milter) == line
    ensures MilterLine(line).Some? ==> forall r :: !Reads(r, line) && !Reads(r, WithMilter(line, milter))
  {
    hide MilterLine, TidyLine, Reads, Entries, Extended, Endpoint;
    if MilterLine(line).Some? {
      EditedMilterIsTidy(line, milter);
      LineKeepsMilters(line, milter);
      MilterLineUnread(line);
      MilterLineUnread(WithMilter(line, milter));
    }
  }

  lemma {:induction false} MiltersLook(r: Reader, lines: seq<string>, milter: string)
    requires TidyLines(lines) && Endpoint(milter)
    ensures First(r, WithMilters(lines, milter)) == First(r, lines)
  {
    hide Reads, TidyLine, Endpoint, WithMilter;
    if lines != [] {
      assert TidyLine(lines[0]) && forall k :: 0 <= k < |lines[1..]| ==> lines[1..][k] == lines[k + 1];
      MilterKeepsTidy(lines[0], milter);
      MiltersLook(r, lines[1..], milter);
      assert WithMilters(lines, milter)[1..] == WithMilters(lines[1..], milter);
    }
  }

  /** The lines of a tidy file after a milter was added. */
  lemma MilterAddedLines(text: string, milter: string)
    requires Tidy(text) && Endpoint(milter) && Added(text, milter).Some?
    ensures Lines(Added(text, milter).value) == WithMilters(Lines(text), milter)
    ensures Tidy(Added(text, milter).value)
  {
    hide Lines, Added, WithMilter, Endpoint, EndsWithCr, Marked, TerminatedPart, Remainder;
    AddedLines(text, milter);
    var lines := Lines(text);
    var edited, again := WithMilters(lines, milter), Lines(Added(text, milter).value);
    forall k | 0 <= k < |again| ensures again[k] == edited[k] && TidyLine(again[k]) {
      assert TidyLine(lines[k]) && edited[k] == WithMilter(lines[k], milter);
      MilterKeepsTidy(lines[k], milter);
    }
  }

  // ------------------------------------------------------------------- refinement

  lemma ReplacedSettings(e: Editor, text: string, block: seq<string>)
    requires Tidy(text) && TidyLines(block) && forall r :: Owns(e, r) <==> First(r, block).Some?
    ensures Tidy(Replaced(e, text, block))
    ensures var (s, t) := (SettingsOf(text), SettingsOf(Replaced(e, text, block)));
            && t.relay == (if Owns(e, Relay) then Look(Relay, block) else s.relay)
            && t.rate == (if Owns(e, Rate) then Look(Rate, block) else s.rate)
            && t.inbound == (if Owns(e, Inbound) then Look(Inbound, block) else s.inbound)
            && t.outbound == (if Owns(e, Outbound) then Look(Outbound, block) else s.outbound)
  {
    hide Look, First, Replaced, Lines, TidyLine;
    EditedLines(e, text, block);
    ReplacedLook(e, Relay, text, block);
    ReplacedLook(e, Rate, text, block);
    ReplacedLook(e, Inbound, text, block);
    ReplacedLook(e, Outbound, text, block);
  }

  lemma CleanedSettings(e: Editor, text: string)
    requires Tidy(text)
    ensures Tidy(Cleaned(e, text))
    ensures var (s, t) := (SettingsOf(text), SettingsOf(Cleaned(e, text)));
            && t.relay == (if Owns(e, Relay) then None else s.relay)
            && t.rate == (if Owns(e, Rate) then None else s.rate)
            && t.inbound == (if Owns(e, Inbound) then None else s.inbound)
            && t.outbound == (if Owns(e, Outbound) then None else s.outbound)
  {
    hide Look, Cleaned, Lines, TidyLine;
    EditedLines(e, text, []);
    CleanedLook(e, Relay, text);
    CleanedLook(e, Rate, text);
    CleanedLook(e, Inbound, text);
    CleanedLook(e, Outbound, text);
  }

  lemma MilterSettings(text: string, milter: string)
    requires Tidy(text) && Endpoint(milter) && Added(text, milter).Some?
    ensures Tidy(Added(text, milter).value) && SettingsOf(Added(text, milter).value) == SettingsOf(text)
  {
    hide Lines, TidyLine, Added, Endpoint;
    MilterAddedLines(text, milter);
    MiltersLook(Relay, Lines(text), milter);
    MiltersLook(Rate, Lines(text), milter);
    MiltersLook(Inbound, Lines(text), milter);
    MiltersLook(Outbound, Lines(text), milter);
  }

  /** One request does to the readings what it does to the record, and keeps the file tidy. */
  lemma StepRefines(text: string, edit: Edit)
    requires Tidy(text) && Plain(edit)
    ensures Tidy(Step(text, edit)) && SettingsOf(Step(text, edit)) == Apply(SettingsOf(text), edit)
  {
    hide Tidy, SettingsOf, Look, First, TidyLines, ParseRate, RelayBlock, RateBlock, TlsBlock, Added, Endpoint,
        Marked, Replaced, Cleaned;
    if Valid(edit) {
      match edit
      case RelaySet(host, port, _, _) =>
        RelayBlockReads(host, port);
        ReplacedSettings(RelayEditor, text, RelayBlock(host, port));
      case RelayRemove =>
        CleanedSettings(RelayEditor, text);
      case RateSet(rate) =>
        RateBlockReads(rate);
        ReplacedSettings(RateEditor, text, RateBlock(rate));
      case RateRemove =>
        CleanedSettings(RateEditor, text);
      case TlsSet(inbound, outbound) =>
        TlsBlockReads(inbound, outbound);
        ReplacedSettings(TlsEditor, text, TlsBlock(inbound, outbound));
      case MilterAdd(milter) =>
        if Added(text, milter).Some? {
          MilterSettings(text, milter);
        }
    }
  }

  /** After any sequence of requests the status handlers report what the record holds. */
  lemma {:induction false} RunRefines(text: string, edits: seq<Edit>)
    requires Tidy(text) && forall k :: 0 <= k < |edits| ==> Plain(edits[k])
    ensures Tidy(Run(text, edits)) && SettingsOf(Run(text, edits)) == ApplyAll(SettingsOf(text), edits)
    decreases |edits|
  {
    hide Tidy, SettingsOf, Step, Apply, Plain;
    if edits != [] {
      StepRefines(text, edits[0]);
      RunRefines(Step(text, edits[0]), edits[1..]);
    }
  }

  /** The relay reader reports the configured endpoint exactly when the host has no `=`. */
  lemma ReportedIff(host: string, port: nat)
    ensures Reported(host, port) == RelayEndpoint(host, port) <==> '=' !in host
  {
    hide Trim, UpTo, Decimal;
    var endpoint := RelayEndpoint(host, port);
    DigitsText(port);
    assert endpoint[0] == '[' && endpoint[|endpoint| - 1] == Decimal(port)[|Decimal(port)| - 1];
    assert '=' in endpoint <==> '=' in host by {
      assert forall k :: 0 <= k < |host| ==> endpoint[k + 1] == host[k];
    }
    UpToAll(" " + endpoint, '=');
    if '=' !in host {
      TrimCore(" ", endpoint, []);
      assert " " + endpoint + [] == " " + endpoint;
    } else {
      var shown := UpTo(" " + endpoint, '=');
      var w, v := TrimShape(shown);
      assert |shown| < |endpoint| + 1;
      assert shown != [] ==> shown[0] == ' ';
      assert |Trim(shown)| == |shown| ==> Trim(shown) == shown;
    }
  }

  // --------------------------------------------------------------- everything else

  /** A line no handler has a say about: none of these settings, neither comment, no milter list, not blank. */
  predicate Unrelated(line: string) {
    && line != ""
    && !Touched(line, ["relayhost", "smtp_sasl_", "smtp_tls_"], ["# DockPanel relay"])
    && !Touched(line, ["smtp_destination_rate_delay", "smtp_extra_recipient_limit"], ["# DockPanel rate limit"])
    && !Touched(line, ["smtpd_tls_security_level", "smtp_tls_security_level"], [])
    && MilterLine(line).None?
  }

  function IsUnrelated(): string -> bool {
    line => Unrelated(line)
  }

  function Others(text: string): seq<string> {
    Filter(IsUnrelated(), Lines(text))
  }

  lemma NameStarts(name: string, value: string, p: string)
    requires |p| <= |name| && name[..|p|] == p
    ensures StartsWith(Setting(name, value), p)
  {
    StartsWithFirst(name, " = " + value);
    assert Setting(name, value) == name + (" = " + value);
    PrefixOfPrefix(Setting(name, value), name, p);
  }

  lemma RelayCommentIsMarked()
    ensures Contains(RELAY_MARK + " configuration", RELAY_MARK)
  {
    hide Find;
    var line := RELAY_MARK + " configuration";
    assert line[0..|RELAY_MARK|] == RELAY_MARK;
    assert HasAt(line, 0, RELAY_MARK);
  }

  /** Each editor would itself drop every line it appends. */
  lemma RelayBlockIsOwn(host: string, port: nat)
    ensures forall k :: 0 <= k < |RelayBlock(host, port)| ==> Drops(RelayEditor, RelayBlock(host, port)[k])
  {
    hide StartsWith, Contains, RelayEndpoint, Setting;
    var block := RelayBlock(host, port);
    RelayCommentIsMarked();
    NameStarts("relayhost", RelayEndpoint(host, port), "relayhost");
    NameStarts("smtp_sasl_auth_enable", "yes", "smtp_sasl_");
    NameStarts("smtp_sasl_password_maps", "hash:/etc/postfix/sasl_passwd", "smtp_sasl_");
    NameStarts("smtp_sasl_security_options", "noanonymous", "smtp_sasl_");
    NameStarts("smtp_tls_security_level", "encrypt", "smtp_tls_");
    NameStarts("smtp_tls_CAfile", "/etc/ssl/certs/ca-certificates.crt", "smtp_tls_");
    forall k | 0 <= k < 7 ensures Drops(RelayEditor, block[k]) {
      assert k == 0 || k == 1 || k == 2 || k == 3 || k == 4 || k == 5 || k == 6;
    }
  }

  lemma RateBlockIsOwn(rate: string)
    requires ParseRate(rate).Some?
    ensures forall k :: 0 <= k < |RateBlock(rate)| ==> Drops(RateEditor, RateBlock(rate)[k])
  {
    hide StartsWith, Contains, Setting, ParseRate, Decimal;
    var (count, period) := ParseRate(rate).value;
    RateText(rate);
    RateComment(rate);
    RateReadingIsMarked(RATE_MARK + ": " + rate);
    NameStarts("smtp_destination_rate_delay", Decimal(period / count) + "s", "smtp_destination_rate_delay");
    NameStarts("smtp_extra_recipient_limit", Decimal(if count < 50 then count else 50), "smtp_extra_recipient_limit");
  }

  lemma TlsBlockIsOwn(inbound: string, outbound: string)
    ensures forall k :: 0 <= k < |TlsBlock(inbound, outbound)| ==> Drops(TlsEditor, TlsBlock(inbound, outbound)[k])
  {
    hide StartsWith, Setting;
    NameStarts("smtpd_tls_security_level", inbound, "smtpd_tls_security_level");
    NameStarts("smtp_tls_security_level", outbound, "smtp_tls_security_level");
  }

  predicate OwnBlock(e: Editor, block: seq<string>) {
    TidyLines(block) && forall k :: 0 <= k < |block| ==> Drops(e, block[k])
  }

  lemma UnrelatedIsKept(e: Editor, line: string)
    requires Unrelated(line)
    ensures !Drops(e, line)
  {
    hide Drops, Touched;
    DropsExactly(line);
  }

  lemma OthersAmongKept(e: Editor, lines: seq<string>)
    ensures Filter(IsUnrelated(), Filter(Keeps(e), lines)) == Filter(IsUnrelated(), lines)
  {
    hide Unrelated, Drops;
    forall k | 0 <= k < |lines| ensures Unrelated(lines[k]) ==> !Drops(e, lines[k]) {
      if Unrelated(lines[k]) {
        UnrelatedIsKept(e, lines[k]);
      }
    }
    FilterTwice(Keeps(e), IsUnrelated(), IsUnrelated(), lines);
  }

  lemma ReplacedKeepsOthers(e: Editor, text: string, block: seq<string>)
    requires Tidy(text) && OwnBlock(e, block)
    ensures Others(Replaced(e, text, block)) == Others(text)
  {
    hide Lines, Drops, Replaced, TidyLines, Filter;
    EditedLines(e, text, block);
    var kept := Kept(e, text);
    OthersAmongKept(e, Lines(text));
    FilterConcat(IsUnrelated(), OrBlank(kept), block);
    OneBlank();
    forall k | 0 <= k < |block| ensures !Unrelated(block[k]) {
      if Unrelated(block[k]) {
        UnrelatedIsKept(e, block[k]);
      }
    }
    FilterNone(IsUnrelated(), block);
    FilterNone(IsUnrelated(), []);
    assert Filter(IsUnrelated(), OrBlank(kept)) + [] == Filter(IsUnrelated(), OrBlank(kept));
  }

  lemma OneBlank()
    ensures Filter(IsUnrelated(), [""]) == []
  {
    FilterNone(IsUnrelated(), [""]);
  }

  lemma CleanedKeepsOthers(e: Editor, text: string)
    requires Tidy(text)
    ensures Others(Cleaned(e, text)) == Others(text)
  {
    hide Lines, Drops, Cleaned, TidyLine, Filter, Unrelated;
    EditedLines(e, text, []);
    var kept := Kept(e, text);
    OthersAmongKept(e, Lines(text));
    OneBlank();
    if kept != [] && kept[|kept| - 1] == [] {
      var front := kept[..|kept| - 1];
      assert kept == front + [""];
      FilterConcat(IsUnrelated(), front, [""]);
      assert Filter(IsUnrelated(), front) + [] == Filter(IsUnrelated(), front);
    }
  }

  lemma {:induction false} MiltersKeepOthers(lines: seq<string>, milter: string)
    requires TidyLines(lines) && Endpoint(milter)
    ensures Filter(IsUnrelated(), WithMilters(lines, milter)) == Filter(IsUnrelated(), lines)
  {
    hide TidyLine, Endpoint, WithMilter, MilterLine, Drops;
    if lines != [] {
      assert TidyLine(lines[0]) && forall k :: 0 <= k < |lines[1..]| ==> lines[1..][k] == lines[k + 1];
      MilterKeepsTidy(lines[0], milter);
      MiltersKeepOthers(lines[1..], milter);
      assert WithMilters(lines, milter)[1..] == WithMilters(lines[1..], milter);
    }
  }

  /** A request leaves every unrelated line as it was, in its place among the others. */
  lemma StepKeepsOthers(text: string, edit: Edit)
    requires Tidy(text) && Plain(edit)
    ensures Others(Step(text, edit)) == Others(text)
  {
    hide Lines, Others, TidyLine, Drops, First, Look, ParseRate, RelayBlock, RateBlock, Added, Endpoint, Marked,
        Replaced, Cleaned, Filter, Setting;
    if Valid(edit) {
      match edit
      case RelaySet(host, port, _, _) =>
        RelayBlockReads(host, port);
        RelayBlockIsOwn(host, port);
        ReplacedKeepsOthers(RelayEditor, text, RelayBlock(host, port));
      case RelayRemove => CleanedKeepsOthers(RelayEditor, text);
      case RateSet(rate) =>
        RateBlockReads(rate);
        RateBlockIsOwn(rate);
        ReplacedKeepsOthers(RateEditor, text, RateBlock(rate));
      case RateRemove => CleanedKeepsOthers(RateEditor, text);
      case TlsSet(inbound, outbound) =>
        TlsBlockReads(inbound, outbound);
        TlsBlockIsOwn(inbound, outbound);
        ReplacedKeepsOthers(TlsEditor, text, TlsBlock(inbound, outbound));
      case MilterAdd(milter) =>
        if Added(text, milter).Some? {
          MilterKeepsAllOthers(text, milter);
        }
    }
  }

  lemma MilterKeepsAllOthers(text: string, milter: string)
    requires Tidy(text) && Endpoint(milter) && Added(text, milter).Some?
    ensures Others(Added(text, milter).value) == Others(text)
  {
    hide Lines, TidyLine, Endpoint, Added, Unrelated, Filter;
    MilterAddedLines(text, milter);
    MiltersKeepOthers(Lines(text), milter);
  }

  /** Over any sequence of requests, unrelated lines keep their content and order. */
  lemma {:induction false} RunKeepsOthers(text: string, edits: seq<Edit>)
    requires Tidy(text) && forall k :: 0 <= k < |edits| ==> Plain(edits[k])
    ensures Others(Run(text, edits)) == Others(text)
    decreases |edits|
  {
    hide Tidy, Others, Step, Plain, SettingsOf, Apply;
    if edits != [] {
      StepRefines(text, edits[0]);
      StepKeepsOthers(text, edits[0]);
      RunKeepsOthers(Step(text, edits[0]), edits[1..]);
    }
  }

  // ------------------------------------------------------ each edit, written out

  /** The lines that start with none of the names and hold none of the marks. */
  function Without(lines: seq<string>, names: seq<string>, marks: seq<string>): seq<string> {
    Filter((line: string) => !Touched(line, names, marks), lines)
  }

  lemma KeptIsWithout(text: string)
    ensures Kept(RelayEditor, text) ==
            Without(Lines(text), ["relayhost", "smtp_sasl_", "smtp_tls_"], ["# DockPanel relay"])
    ensures Kept(RateEditor, text) ==
            Without(Lines(text), ["smtp_destination_rate_delay", "smtp_extra_recipient_limit"],
                    ["# DockPanel rate limit"])
    ensures Kept(TlsEditor, text) == Without(Lines(text), ["smtpd_tls_security_level", "smtp_tls_security_level"], [])
  {
    hide Drops, Touched, Lines;
    KeptBy(RelayEditor, Lines(text), ["relayhost", "smtp_sasl_", "smtp_tls_"], ["# DockPanel relay"]);
    KeptBy(RateEditor, Lines(text),
           ["smtp_destination_rate_delay", "smtp_extra_recipient_limit"], ["# DockPanel rate limit"]);
    KeptBy(TlsEditor, Lines(text), ["smtpd_tls_security_level", "smtp_tls_security_level"], []);
  }

  lemma KeptBy(e: Editor, lines: seq<string>, names: seq<string>, marks: seq<string>)
    requires match e
      case RelayEditor => names == ["relayhost", "smtp_sasl_", "smtp_tls_"] && marks == ["# DockPanel relay"]
      case RateEditor => names == ["smtp_destination_rate_delay", "smtp_extra_recipient_limit"]
                         && marks == ["# DockPanel rate limit"]
      case TlsEditor => names == ["smtpd_tls_security_level", "smtp_tls_security_level"] && marks == []
    ensures Filter(Keeps(e), lines) == Without(lines, names, marks)
  {
    hide Drops, Touched;
    forall k | 0 <= k < |lines| ensures Drops(e, lines[k]) <==> Touched(lines[k], names, marks) {
      DropsExactly(lines[k]);
    }
    FilterSame(Keeps(e), (line: string) => !Touched(line, names, marks), lines);
  }

  /** Which levels are accepted, and the file's lines once they are enforced. */
  lemma TlsEditLines(text: string, inbound: string, outbound: string)
    requires Tidy(text)
    ensures Valid(TlsSet(inbound, outbound)) <==>
            inbound in ["may", "encrypt", "none"] && outbound in ["may", "encrypt", "none"]
    ensures Valid(TlsSet(inbound, outbound)) ==>
              Lines(Step(text, TlsSet(inbound, outbound))) ==
              OrBlank(Without(Lines(text), ["smtpd_tls_security_level", "smtp_tls_security_level"], []))
              + ["smtpd_tls_security_level = " + inbound, "smtp_tls_security_level = " + outbound]
  {
    hide Lines, Drops, Replaced, TidyLine, Without, Touched;
    if Valid(TlsSet(inbound, outbound)) {
      var block := TlsBlock(inbound, outbound);
      TlsBlockReads(inbound, outbound);
      EditedLines(TlsEditor, text, block);
      KeptIsWithout(text);
      SettingText("smtpd_tls_security_level", inbound);
      SettingText("smtp_tls_security_level", outbound);
      TlsNames(inbound, outbound);
    }
  }

  lemma SettingText(name: string, value: string)
    ensures Setting(name, value) == (name + " = ") + value
  {
  }

  lemma TlsNames(inbound: string, outbound: string)
    ensures ("smtpd_tls_security_level" + " = ") + inbound == "smtpd_tls_security_level = " + inbound
    ensures ("smtp_tls_security_level" + " = ") + outbound == "smtp_tls_security_level = " + outbound
  {
  }

  /** Which relays are accepted. */
  lemma RelayAcceptedIff(host: string, port: nat, username: string, password: string)
    ensures Valid(RelaySet(host, port, username, password)) <==>
            && host != "" && (forall c :: c in host ==> c !in ['\n', '\r', '\0'])
            && forall c :: c in username + password ==> c !in ['\n', '\0']
  {
    if forall c :: c in username + password ==> c !in ['\n', '\0'] {
      assert forall c :: c in username || c in password ==> c in username + password;
      assert '\n' in ['\n', '\0'] && '\0' in ['\n', '\0'];
    }
  }

  /** The file's lines once a relay is configured. */
  lemma RelayEditLines(text: string, host: string, port: nat, username: string, password: string)
    requires Tidy(text) && Valid(RelaySet(host, port, username, password))
    ensures Lines(Step(text, RelaySet(host, port, username, password))) ==
            OrBlank(Without(Lines(text), ["relayhost", "smtp_sasl_", "smtp_tls_"], ["# DockPanel relay"]))
            + ["# DockPanel relay configuration",
               "relayhost = [" + host + "]:" + Decimal(port),
               "smtp_sasl_auth_enable = yes",
               "smtp_sasl_password_maps = hash:/etc/postfix/sasl_passwd",
               "smtp_sasl_security_options = noanonymous",
               "smtp_tls_security_level = encrypt",
               "smtp_tls_CAfile = /etc/ssl/certs/ca-certificates.crt"]
  {
    hide Lines, Drops, Replaced, TidyLine, Without, Touched, RelayBlock, Decimal;
    RelayBlockIsPlain(host, port);
    EditedLines(RelayEditor, text, RelayBlock(host, port));
    KeptIsWithout(text);
    RelayBlockText(host, port);
  }

  lemma RelayBlockText(host: string, port: nat)
    ensures RelayBlock(host, port) == [
              "# DockPanel relay configuration",
              "relayhost = [" + host + "]:" + Decimal(port),
              "smtp_sasl_auth_enable = yes",
              "smtp_sasl_password_maps = hash:/etc/postfix/sasl_passwd",
              "smtp_sasl_security_options = noanonymous",
              "smtp_tls_security_level = encrypt",
              "smtp_tls_CAfile = /etc/ssl/certs/ca-certificates.crt"
            ]
  {
    hide Decimal, Setting;
    CommentText();
    HostText(host, port);
    AuthText();
    PasswordMapText();
    NoAnonymousText();
    LevelSettingText();
    CaFileText();
  }

  lemma CommentText()
    ensures RELAY_MARK + " configuration" == "# DockPanel relay configuration"
  {
  }

  lemma HostText(host: string, port: nat)
    ensures Setting("relayhost", RelayEndpoint(host, port)) == "relayhost = [" + host + "]:" + Decimal(port)
  {
    hide Decimal;
    assert "relayhost" + " = " + ("[" + (host + ("]:" + Decimal(port))))
           == "relayhost = [" + host + "]:" + Decimal(port);
  }

  lemma AuthText()
    ensures Setting("smtp_sasl_auth_enable", "yes") == "smtp_sasl_auth_enable = yes"
  {
  }

  lemma PasswordMapText()
    ensures Setting("smtp_sasl_password_maps", "hash:/etc/postfix/sasl_passwd")
            == "smtp_sasl_password_maps = hash:/etc/postfix/sasl_passwd"
  {
  }

  lemma NoAnonymousText()
    ensures Setting("smtp_sasl_security_options", "noanonymous") == "smtp_sasl_security_options = noanonymous"
  {
  }

  lemma LevelSettingText()
    ensures Setting("smtp_tls_security_level", "encrypt") == "smtp_tls_security_level = encrypt"
  {
  }

  lemma CaFileText()
    ensures Setting("smtp_tls_CAfile", "/etc/ssl/certs/ca-certificates.crt")
            == "smtp_tls_CAfile = /etc/ssl/certs/ca-certificates.crt"
  {
  }

  predicate IsPeriod(period: string, seconds: nat) {
    (period == "minute" && seconds == 60) || (period == "hour" && seconds == 3600)
    || (period == "day" && seconds == 86400)
  }

  /** `count/period`, with a positive count: its number, and the seconds of its period. */
  ghost predicate IsRate(rate: string, n: nat, seconds: nat) {
    && n > 0
    && exists count, period ::
         && rate == count + "/" + period && SpellsU32(count, n)
         && IsPeriod(period, seconds)
  }

  lemma PeriodIff(period: string, seconds: nat)
    ensures PeriodSeconds(period) == Some(seconds) <==>
            IsPeriod(period, seconds)
  {
    assert period == "minute" ==> |period| == 6;
    assert period == "hour" ==> |period| == 4;
    assert period == "day" ==> |period| == 3;
  }

  lemma SpelledHasNoSlash(count: string, n: nat)
    requires SpellsU32(count, n)
    ensures '/' !in count
  {
    hide SpellsU32;
    ParseU32Iff(count, n);
    CountText(count);
  }

  /** A rate is accepted exactly when it is a positive 32-bit number, a slash, and minute, hour or day. */
  lemma RateIff(rate: string, n: nat, seconds: nat)
    ensures ParseRate(rate) == Some((n, seconds)) <==> IsRate(rate, n, seconds)
  {
    hide SpellsU32, ParseU32, PeriodSeconds, SplitOnce;
    SplitOnceShape(rate, '/');
    if ParseRate(rate) == Some((n, seconds)) {
      var (count, period) := SplitOnce(rate, '/').value;
      ParseU32Iff(count, n);
      PeriodIff(period, seconds);
      assert rate == count + "/" + period;
    }
    if IsRate(rate, n, seconds) {
      var count, period :| && rate == count + "/" + period && SpellsU32(count, n)
                           && IsPeriod(period, seconds);
      ParseU32Iff(count, n);
      PeriodIff(period, seconds);
      SpelledHasNoSlash(count, n);
      SplitAtSlash(count, period);
    }
  }

  lemma RateAcceptedIff(rate: string)
    ensures Valid(RateSet(rate)) <==> exists n, seconds: nat :: IsRate(rate, n, seconds)
  {
    hide ParseRate, IsRate;
    if ParseRate(rate).Some? {
      var (n, seconds) := ParseRate(rate).value;
      RateIff(rate, n, seconds);
    }
    forall n, seconds: nat | IsRate(rate, n, seconds) ensures ParseRate(rate).Some? {
      RateIff(rate, n, seconds);
    }
  }

  lemma SplitAtSlash(a: string, b: string)
    requires '/' !in a
    ensures SplitOnce(a + "/" + b, '/') == Some((a, b))
  {
    hide Find;
    FirstOccurrence(a, '/', b);
    assert a + "/" + b == a + ['/'] + b;
  }

  /** A file's lines once a rate of `n` messages in `seconds` is set: a delay rounded down, fifty recipients at most. */
  predicate RateIsWritten(before: seq<string>, after: seq<string>, rate: string, n: nat, seconds: nat)
    requires n > 0
  {
    after ==
    OrBlank(Without(before, ["smtp_destination_rate_delay", "smtp_extra_recipient_limit"], ["# DockPanel rate limit"]))
    + ["# DockPanel rate limit: " + rate,
       "smtp_destination_rate_delay = " + Decimal(seconds / n) + "s",
       "smtp_extra_recipient_limit = " + Decimal(if n < 50 then n else 50)]
  }

  lemma RateEditLines(text: string, rate: string, n: nat, seconds: nat)
    requires Tidy(text) && n > 0 && ParseRate(rate) == Some((n, seconds))
    ensures RateIsWritten(Lines(text), Lines(Step(text, RateSet(rate))), rate, n, seconds)
  {
    hide Lines, TidyLine, Without, Kept, RateBlock, Decimal, ParseRate, Step, Valid;
    RateStep(text, rate);
    RateLines(text, rate);
    KeptIsWithout(text);
    RateBlockText(rate, n, seconds);
  }

  lemma RateLinesOf(text: string, rate: string)
    requires Tidy(text)
    ensures forall n, seconds: nat :: n > 0 && IsRate(rate, n, seconds) ==>
              RateIsWritten(Lines(text), Lines(Step(text, RateSet(rate))), rate, n, seconds)
  {
    hide Lines, Tidy, ParseRate, Step, IsRate, RateIsWritten;
    forall n, seconds: nat | n > 0 && IsRate(rate, n, seconds)
      ensures RateIsWritten(Lines(text), Lines(Step(text, RateSet(rate))), rate, n, seconds)
    {
      RateIff(rate, n, seconds);
      RateEditLines(text, rate, n, seconds);
    }
  }

  lemma RateLines(text: string, rate: string)
    requires Tidy(text) && ParseRate(rate).Some?
    ensures Lines(Replaced(RateEditor, text, RateBlock(rate))) == OrBlank(Kept(RateEditor, text)) + RateBlock(rate)
  {
    hide Lines, Drops, Replaced, TidyLine, RateBlock, ParseRate, First, Look;
    RateBlockReads(rate);
    EditedLines(RateEditor, text, RateBlock(rate));
  }

  lemma RateStep(text: string, rate: string)
    requires ParseRate(rate).Some?
    ensures Valid(RateSet(rate)) && Step(text, RateSet(rate)) == Replaced(RateEditor, text, RateBlock(rate))
  {
  }

  lemma RateBlockText(rate: string, n: nat, seconds: nat)
    requires ParseRate(rate) == Some((n, seconds))
    ensures n > 0
    ensures RateBlock(rate) == ["# DockPanel rate limit: " + rate,
                                "smtp_destination_rate_delay = " + Decimal(seconds / n) + "s",
                                "smtp_extra_recipient_limit = " + Decimal(if n < 50 then n else 50)]
  {
    hide Decimal, ParseRate;
    var delay, limit := Decimal(seconds / n), Decimal(if n < 50 then n else 50);
    assert RATE_MARK + ": " + rate == "# DockPanel rate limit: " + rate;
    assert Setting("smtp_destination_rate_delay", delay + "s") == "smtp_destination_rate_delay = " + delay + "s";
    assert Setting("smtp_extra_recipient_limit", limit) == "smtp_extra_recipient_limit = " + limit;
  }

  /** The file's lines after the two removals, which lose a blank last line. */
  lemma RemovalLines(text: string)
    requires Tidy(text)
    ensures Lines(Step(text, RelayRemove)) ==
            WithoutBlankEnd(Without(Lines(text), ["relayhost", "smtp_sasl_", "smtp_tls_"], ["# DockPanel relay"]))
    ensures Lines(Step(text, RateRemove)) ==
            WithoutBlankEnd(Without(Lines(text), ["smtp_destination_rate_delay", "smtp_extra_recipient_limit"],
                                    ["# DockPanel rate limit"]))
  {
    hide Lines, Drops, Cleaned, TidyLine, Without, Touched;
    EditedLines(RelayEditor, text, []);
    EditedLines(RateEditor, text, []);
    KeptIsWithout(text);
  }

  // ------------------------------------------------------ an edit after its like

  function EditorOf(edit: Edit): Option<Editor> {
    match edit
    case RelaySet(_, _, _, _) | RelayRemove => Some(RelayEditor)
    case RateSet(_) | RateRemove => Some(RateEditor)
    case TlsSet(_, _) => Some(TlsEditor)
    case MilterAdd(_) => None
  }

  predicate Removes(edit: Edit) {
    edit.RelayRemove? || edit.RateRemove?
  }

  /** A blank last line that a rewrite by `join` loses. */
  predicate TrailingBlank(lines: seq<string>) {
    |lines| > 1 && lines[|lines| - 1] == []
  }

  lemma JoinWithoutBlank(lines: seq<string>)
    ensures Join(WithoutBlankEnd(lines)) == Join(lines) <==> !TrailingBlank(lines)
    ensures Join(OrBlank(lines)) == Join(lines)
  {
    if TrailingBlank(lines) {
      JoinSplit(lines);
      TerminatedIsJoin(lines[..|lines| - 1]);
    }
  }

  /** What an editor keeps of a file it has already edited. */
  lemma KeptAfterReplaced(e: Editor, text: string, block: seq<string>)
    requires Tidy(text) && OwnBlock(e, block)
    ensures Cleaned(e, Replaced(e, text, block)) == Cleaned(e, text)
  {
    hide Lines, Drops, Replaced, TidyLines, Filter, Join;
    EditedLines(e, text, block);
    var kept := Kept(e, text);
    FilterConcat(Keeps(e), OrBlank(kept), block);
    FilterNone(Keeps(e), block);
    BlankIsKept(e);
    FilterAll(Keeps(e), OrBlank(kept));
    JoinWithoutBlank(kept);
    assert OrBlank(kept) + [] == OrBlank(kept);
  }

  lemma BlankIsKept(e: Editor)
    ensures !Drops(e, "")
  {
    LacksHash("");
  }

  lemma KeptAfterCleaned(e: Editor, text: string)
    requires Tidy(text)
    ensures Cleaned(e, Cleaned(e, text)) == Cleaned(e, text) <==> !TrailingBlank(Kept(e, text))
  {
    hide Lines, Drops, TidyLine, Filter, Join, TrailingBlank;
    EditedLines(e, text, []);
    var kept := Kept(e, text);
    var rest := WithoutBlankEnd(kept);
    FilterAll(Keeps(e), rest);
    JoinWithoutBlank(kept);
  }

  /** The file after an accepted edit depends on the earlier text only through what its editor keeps. */
  lemma EditOfCleaned(a: string, b: string, edit: Edit)
    requires Valid(edit) && EditorOf(edit).Some?
    ensures var e := EditorOf(edit).value; Step(a, edit) == Step(b, edit) <==> Cleaned(e, a) == Cleaned(e, b)
  {
    hide Cleaned, ParseRate, RelayBlock, RateBlock, TlsBlock, Terminated;
    match edit
    case RelaySet(host, port, _, _) =>
      SameTail(Cleaned(RelayEditor, a), Cleaned(RelayEditor, b), Terminated(RelayBlock(host, port)));
    case RelayRemove =>
    case RateSet(rate) =>
      SameTail(Cleaned(RateEditor, a), Cleaned(RateEditor, b), Terminated(RateBlock(rate)));
    case RateRemove =>
    case TlsSet(inbound, outbound) =>
      SameTail(Cleaned(TlsEditor, a), Cleaned(TlsEditor, b), Terminated(TlsBlock(inbound, outbound)));
  }

  lemma SameTail(a: string, b: string, tail: string)
    ensures a + "\n" + tail == b + "\n" + tail <==> a == b
  {
    if a + "\n" + tail == b + "\n" + tail {
      assert |a| == |b|;
      assert (a + "\n" + tail)[..|a|] == a && (b + "\n" + tail)[..|b|] == b;
    }
  }

  /**
    A later edit of the same kind leaves the file it would have left alone: blocks never pile up. The one
    exception is a removal before it that took a trailing blank line along.
   */
  lemma LaterEditWinsIff(text: string, first: Edit, second: Edit)
    requires Tidy(text) && Plain(first) && Valid(first) && Valid(second)
    requires EditorOf(first) == EditorOf(second) && EditorOf(first).Some?
    ensures Step(Step(text, first), second) == Step(text, second)
            <==> !Removes(first) || !TrailingBlank(Kept(EditorOf(first).value, text))
  {
    hide Lines, Cleaned, Replaced, Kept, TrailingBlank, ParseRate, RelayBlock, RateBlock, TlsBlock, Marked, Look,
        First, Drops, TidyLine;
    var e := EditorOf(first).value;
    EditOfCleaned(Step(text, first), text, second);
    match first
    case RelaySet(host, port, _, _) =>
      RelayBlockReads(host, port);
      RelayBlockIsOwn(host, port);
      KeptAfterReplaced(e, text, RelayBlock(host, port));
    case RelayRemove => KeptAfterCleaned(e, text);
    case RateSet(rate) =>
      RateBlockReads(rate);
      RateBlockIsOwn(rate);
      KeptAfterReplaced(e, text, RateBlock(rate));
    case RateRemove => KeptAfterCleaned(e, text);
    case TlsSet(inbound, outbound) =>
      TlsBlockReads(inbound, outbound);
      TlsBlockIsOwn(inbound, outbound);
      KeptAfterReplaced(e, text, TlsBlock(inbound, outbound));
  }

  // --------------------------------------------------- hosts that hold a marker

  lemma RelayBlockIsPlain(host: string, port: nat)
    requires '\n' !in host && '\r' !in host
    ensures AllOneLine(RelayBlock(host, port)) && NoCr(RelayBlock(host, port))
    ensures Reads(Relay, RelayBlock(host, port)[1])
    ensures forall k :: 0 <= k < |RelayBlock(host, port)| && k != 1 ==> !Reads(Relay, RelayBlock(host, port)[k])
  {
    hide Reading, Reads, Setting, First, PlainText, RelayEndpoint, Marked;
    RelayComment();
    HostLineIsPlain(host, port);
    SaslSettings();
    OutboundLine("encrypt");
    CaFile();
  }

  lemma HostLineIsPlain(host: string, port: nat)
    requires '\n' !in host && '\r' !in host
    ensures var line := Setting("relayhost", RelayEndpoint(host, port));
            OneLine(line) && !EndsWithCr(line) && Reads(Relay, line)
  {
    DigitsText(port);
    hide Decimal;
    NameStarts("relayhost", RelayEndpoint(host, port), "relayhost");
  }

  lemma HostLineDropped(host: string, port: nat)
    ensures Drops(RateEditor, Setting("relayhost", RelayEndpoint(host, port))) <==> Contains(host, RATE_MARK)
  {
    hide Contains, StartsWith, Decimal;
    var line := Setting("relayhost", RelayEndpoint(host, port));
    DigitsText(port);
    assert line == "relayhost = [" + (host + ("]:" + Decimal(port)));
    RelayHostMarks(host, Decimal(port), RATE_MARK);
    NameStarts("relayhost", RelayEndpoint(host, port), "relayhost");
    KeyChars(line);
  }

  lemma {:induction false} FirstShape(r: Reader, lines: seq<string>)
    ensures First(r, lines).None? <==> forall k :: 0 <= k < |lines| ==> !Reads(r, lines[k])
  {
    hide Reads;
    if lines != [] {
      FirstShape(r, lines[1..]);
      assert forall k :: 1 <= k < |lines| ==> lines[k] == lines[1..][k - 1];
    }
  }

  lemma {:induction false} FirstFiltered(e: Editor, r: Reader, lines: seq<string>)
    ensures First(r, Filter(Keeps(e), lines)).None? <==>
            forall k :: 0 <= k < |lines| && Reads(r, lines[k]) ==> Drops(e, lines[k])
  {
    hide Reads, Drops;
    if lines != [] {
      var rest := Filter(Keeps(e), lines[1..]);
      FirstFiltered(e, r, lines[1..]);
      assert forall k :: 1 <= k < |lines| ==> lines[k] == lines[1..][k - 1];
      assert ([lines[0]] + rest)[1..] == rest && [] + rest == rest;
    }
  }

  /**
    A configured relay outlives the removal of a rate limit exactly when its host does not hold that limit's
    marker.
   */
  lemma RelayOutlivesRateEditIff(text: string, host: string, port: nat, username: string, password: string)
    requires Tidy(text) && Valid(RelaySet(host, port, username, password))
    ensures var relayed := Step(text, RelaySet(host, port, username, password));
            SettingsOf(Step(relayed, RateRemove)).relay.Some? <==> !Contains(host, RATE_MARK)
  {
    hide Lines, First, Reads, Drops, Contains, RelayBlock, Filter, Replaced, TidyLine, Setting;
    var block := RelayBlock(host, port);
    var kept := Kept(RelayEditor, text);
    RelayBlockIsPlain(host, port);
    EditedLines(RelayEditor, text, block);
    var lines := OrBlank(kept) + block;
    FirstKept(RelayEditor, Relay, Lines(text));
    FirstShape(Relay, kept);
    BlankReadsNothing(Relay);
    HostLineDropped(host, port);
    HostLineAt(host, port);
    FirstFiltered(RateEditor, Relay, lines);
    var n := |OrBlank(kept)|;
    assert forall k :: 0 <= k < n ==> !Reads(Relay, lines[k]);
    assert forall k :: n <= k < |lines| ==> lines[k] == block[k - n];
    assert lines[n + 1] == block[1];
    KeptIsTidy(RelayEditor, text);
    BlankIsTidy();
    JoinedLook(RateEditor, Relay, lines);
  }

  /** Rewriting what an editor keeps of some lines loses no reading. */
  lemma JoinedLook(e: Editor, r: Reader, lines: seq<string>)
    requires AllOneLine(lines) && NoCr(lines)
    ensures First(r, Lines(Join(Filter(Keeps(e), lines)))) == First(r, Filter(Keeps(e), lines))
  {
    hide Lines, Reads, Drops, Join, OneLine, EndsWithCr;
    var kept := Filter(Keeps(e), lines);
    forall k | 0 <= k < |kept| ensures OneLine(kept[k]) && !EndsWithCr(kept[k]) {
      var j :| 0 <= j < |lines| && lines[j] == kept[k];
    }
    LinesOfJoin(kept);
    BlankReadsNothing(r);
    if kept != [] && kept[|kept| - 1] == [] {
      assert kept == kept[..|kept| - 1] + [""];
      FirstConcat(r, kept[..|kept| - 1], [""]);
      assert [""][1..] == [];
    }
  }

  lemma HostLineAt(host: string, port: nat)
    ensures |RelayBlock(host, port)| == 7
    ensures RelayBlock(host, port)[1] == Setting("relayhost", RelayEndpoint(host, port))
  {
  }

  /**
    What a rate limit becomes: N messages in a period are one every `delay` seconds, rounded down — so a limit
    of more than one message a second is no limit — and at most fifty recipients.
   */
  lemma RateBlockMeans(rate: string) returns (delay: nat, limit: nat)
    requires ParseRate(rate).Some?
    ensures RateBlock(rate)[1..] == [Setting("smtp_destination_rate_delay", Decimal(delay) + "s"),
                                     Setting("smtp_extra_recipient_limit", Decimal(limit))]
    ensures var (count, period) := ParseRate(rate).value;
            && delay * count <= period < (delay + 1) * count && (delay == 0 <==> count > period)
            && limit <= count && limit <= 50 && (limit == count || limit == 50)
  {
    hide ParseRate, Setting, Decimal;
    var (count, period) := ParseRate(rate).value;
    delay, limit := period / count, if count < 50 then count else 50;
  }

  // ----------------------------------------------------- inputs that show the exceptions

  /** An accepted host with `=` is not reported as configured. */
  lemma HostWithEqualsIsCutShort(port: nat)
    ensures Valid(RelaySet("smtp=1", port, "", "")) && Plain(RelaySet("smtp=1", port, "", ""))
    ensures Reported("smtp=1", port) != RelayEndpoint("smtp=1", port)
  {
    hide Reported, RelayEndpoint, Marked;
    LacksHash("smtp=1");
    assert "smtp=1"[4] == '=';
    ReportedIff("smtp=1", port);
  }

  /** An accepted host that holds the rate marker: a relay set in an empty file is gone once a rate limit is removed. */
  lemma MarkedHostLosesRelay(port: nat)
    ensures Tidy("") && Valid(RelaySet(RATE_MARK, port, "", ""))
    ensures SettingsOf(Step(Step("", RelaySet(RATE_MARK, port, "", "")), RateRemove)).relay == None
  {
    hide Step, SettingsOf, Marked, Lines, Contains, Valid;
    LinesSingle("");
    MarkContainsItself();
    MarkedHostIsValid(port);
    RelayOutlivesRateEditIff("", RATE_MARK, port, "", "");
  }

  lemma MarkedHostIsValid(port: nat)
    ensures Valid(RelaySet(RATE_MARK, port, "", ""))
  {
    hide PlainText;
    assert '\n' !in RATE_TITLE && '\r' !in RATE_TITLE && '\0' !in RATE_TITLE;
  }

  lemma MarkContainsItself()
    ensures Contains(RATE_MARK, RATE_MARK)
  {
    hide Find;
    assert HasAt(RATE_MARK, 0, RATE_MARK);
  }

  /** Removing the relay twice from a file that ends in a blank line takes one more line than removing it once. */
  lemma SecondRemovalDiffers()
    ensures var text := "x" + ['\n'] + ("" + ['\n']);
            Tidy(text) && Step(Step(text, RelayRemove), RelayRemove) != Step(text, RelayRemove)
  {
    var text := "x" + ['\n'] + ("" + ['\n']);
    hide Lines, Drops, Marked, Step, Filter;
    TwoLines("x", "");
    LacksHash("x");
    LacksHash("");
    assert TidyLine("x") && TidyLine("");
    NothingToDrop();
    FilterAll(Keeps(RelayEditor), ["x", ""]);
    LaterEditWinsIff(text, RelayRemove, RelayRemove);
  }

  lemma NothingToDrop()
    ensures !Drops(RelayEditor, "x") && !Drops(RelayEditor, "")
  {
    LacksHash("x");
    LacksHash("");
  }

  /** The accepted limit of 61 messages a minute is written as no delay at all. */
  lemma FastRateIsNoDelay()
    ensures ParseRate("61/minute") == Some((61, 60))
    ensures RateBlock("61/minute")[1] == Setting("smtp_destination_rate_delay", "0s")
  {
    FirstOccurrence("61", '/', "minute");
    assert "61/minute" == "61" + ['/'] + "minute";
    assert "61"[..1] == "6" && "6"[..0] == "";
    assert DigitsValue("6") == Some(6) && DigitsValue("61") == Some(61);
    hide ParseRate;
    var delay, _ := RateBlockMeans("61/minute");
    assert Decimal(0) + "s" == "0s";
  }

  // ------------------------------------------------------------------ the handlers

  /** Line `k` is the first that holds `p`. */
  predicate HoldsFirst(p: string, lines: seq<string>, k: nat) {
    k < |lines| && Contains(lines[k], p) && forall j :: 0 <= j < k ==> !Contains(lines[j], p)
  }

  /** What a status handler reports is the value of the first line of its setting. */
  lemma LookStarting(r: Reader, p: string, lines: seq<string>)
    requires !r.Rate?
    requires p == match r case Relay => "relayhost" case Inbound => "smtpd_tls_security_level"
                          case _ => "smtp_tls_security_level"
    ensures (forall k :: 0 <= k < |lines| ==> !StartsWith(lines[k], p)) ==> Look(r, lines) == None
    ensures forall k: nat :: StartsFirst(p, lines, k) ==> Look(r, lines) == Some(ValueBehind('=', lines[k]))
  {
    hide StartsWith, First, ValueBehind;
    if forall k :: 0 <= k < |lines| ==> !StartsWith(lines[k], p) {
      FirstNone(r, lines);
    }
    forall k: nat | StartsFirst(p, lines, k) ensures Look(r, lines) == Some(ValueBehind('=', lines[k])) {
      FirstAt(r, lines, k);
    }
  }

  lemma LookRate(lines: seq<string>)
    ensures (forall k :: 0 <= k < |lines| ==> !Contains(lines[k], "# DockPanel rate limit:")) ==>
              Look(Rate, lines) == None
    ensures forall k: nat :: HoldsFirst("# DockPanel rate limit:", lines, k) ==>
              Look(Rate, lines) == Some(ValueBehind(':', lines[k]))
  {
    hide Contains, First, ValueBehind;
    assert RATE_MARK + ":" == "# DockPanel rate limit:";
    if forall k :: 0 <= k < |lines| ==> !Contains(lines[k], "# DockPanel rate limit:") {
      FirstNone(Rate, lines);
    }
    forall k: nat | HoldsFirst("# DockPanel rate limit:", lines, k)
      ensures Look(Rate, lines) == Some(ValueBehind(':', lines[k]))
    {
      FirstAt(Rate, lines, k);
    }
  }

  /** A line's value: the trimmed text between the first separator and the next, or the end. */
  lemma ValueBehindMeans(name: string, c: char, value: string, rest: string)
    requires c !in name && c !in value && (rest != "" ==> rest[0] == c)
    ensures ValueBehind(c, name + [c] + (value + rest)) == Trim(value)
    ensures ValueBehind(c, name) == ""
  {
    hide Trim, FindFrom;
    FirstOccurrence(name, c, value + rest);
    UpToSeparator(value, c, rest);
    LacksElement(name, [c], c);
  }

  lemma {:induction false} UpToSeparator(value: string, c: char, rest: string)
    requires c !in value && (rest != "" ==> rest[0] == c)
    ensures UpTo(value + rest, c) == value
  {
    if value == "" {
      assert value + rest == rest;
    } else {
      assert (value + rest)[1..] == value[1..] + rest;
      UpToSeparator(value[1..], c, rest);
    }
  }

  /** The value of the first line of Dovecot's file that starts with `ssl`. */
  method DovecotSsl(conf: string) returns (ssl: string)
    ensures (forall k :: 0 <= k < |Lines(conf)| ==> !StartsWith(Lines(conf)[k], "ssl")) ==> ssl == ""
    ensures forall k: nat :: StartsFirst("ssl", Lines(conf), k) ==> ssl == ValueBehind('=', Lines(conf)[k])
  {
    hide StartsWith, Lines, FirstStarting, ValueBehind;
    var lines := Lines(conf);
    var line := FirstStarting("ssl", lines);
    ssl := if line.Some? then ValueBehind('=', line.value) else "";
    if forall k :: 0 <= k < |lines| ==> !StartsWith(lines[k], "ssl") {
      FirstStartingAt("ssl", lines, |lines|);
    }
    forall k: nat | StartsFirst("ssl", lines, k) ensures ssl == ValueBehind('=', lines[k]) {
      FirstStartingAt("ssl", lines, k);
    }
  }

  /** The file and the handlers that rewrite it. A write that fails leaves the old text, like a refused request. */
  class ConfigFile {
    var text: string

    constructor (content: string)
      ensures text == content
    {
      text := content;
    }

    /** `relay_configure` */
    method ConfigureRelay(host: string, port: nat, username: string, password: string) returns (ok: bool)
      modifies this
      ensures ok <==>
              && host != "" && (forall c :: c in host ==> c !in ['\n', '\r', '\0'])
              && forall c :: c in username + password ==> c !in ['\n', '\0']
      ensures text == Step(old(text), RelaySet(host, port, username, password))
      ensures Tidy(old(text)) && !Marked(host) ==>
                Tidy(text) && SettingsOf(text) == Apply(SettingsOf(old(text)), RelaySet(host, port, username, password))
      ensures ok && Tidy(old(text)) ==>
                Lines(text) ==
                OrBlank(Without(Lines(old(text)), ["relayhost", "smtp_sasl_", "smtp_tls_"], ["# DockPanel relay"]))
                + ["# DockPanel relay configuration",
                   "relayhost = [" + host + "]:" + Decimal(port),
                   "smtp_sasl_auth_enable = yes",
                   "smtp_sasl_password_maps = hash:/etc/postfix/sasl_passwd",
                   "smtp_sasl_security_options = noanonymous",
                   "smtp_tls_security_level = encrypt",
                   "smtp_tls_CAfile = /etc/ssl/certs/ca-certificates.crt"]
    {
      hide Tidy, SettingsOf, Cleaned, RelayBlock, Marked, Apply, Lines, Without, Decimal;
      RelayAcceptedIff(host, port, username, password);
      if Tidy(text) && Valid(RelaySet(host, port, username, password)) {
        RelayEditLines(text, host, port, username, password);
      }
      if Tidy(text) && !Marked(host) {
        StepRefines(text, RelaySet(host, port, username, password));
      }
      if host == [] {
        return false;
      }
      if '\n' in host || '\r' in host || '\0' in host
        || '\n' in username || '\0' in username || '\n' in password || '\0' in password {
        return false;
      }
      var cleaned := Cleaned(RelayEditor, text);
      text := cleaned + "\n" + Terminated(RelayBlock(host, port));
      return true;
    }

    /** `relay_remove` */
    method RemoveRelay()
      modifies this
      ensures text == Step(old(text), RelayRemove)
      ensures Tidy(old(text)) ==> Tidy(text) && SettingsOf(text) == Apply(SettingsOf(old(text)), RelayRemove)
      ensures Tidy(old(text)) ==>
                Lines(text) ==
                WithoutBlankEnd(Without(Lines(old(text)), ["relayhost", "smtp_sasl_", "smtp_tls_"],
                                        ["# DockPanel relay"]))
    {
      hide Tidy, SettingsOf, Cleaned, Lines, Without;
      if Tidy(text) {
        RemovalLines(text);
        StepRefines(text, RelayRemove);
      }
      text := Cleaned(RelayEditor, text);
    }

    /** `relay_status` */
    method RelayStatus() returns (configured: bool, relayhost: string)
      ensures var relay := SettingsOf(text).relay;
              && relayhost == (if relay.Some? then relay.value else "")
              && (configured <==> relay.Some? && relay.value != "")
      ensures (forall k :: 0 <= k < |Lines(text)| ==> !StartsWith(Lines(text)[k], "relayhost")) ==> relayhost == ""
      ensures forall k: nat :: StartsFirst("relayhost", Lines(text), k) ==>
                relayhost == ValueBehind('=', Lines(text)[k])
    {
      hide Lines, StartsWith, ValueBehind, First;
      LookStarting(Relay, "relayhost", Lines(text));
      var line := First(Relay, Lines(text));
      var found := if line.Some? then Some(Reading(Relay, line.value)) else None;
      configured := found.Some? && found.value != "";
      relayhost := if found.Some? then found.value else "";
    }

    /** `rate_limit_set` */
    method SetRateLimit(rate: string) returns (ok: bool)
      modifies this
      ensures ok <==> exists n, seconds: nat :: IsRate(rate, n, seconds)
      ensures text == Step(old(text), RateSet(rate))
      ensures Tidy(old(text)) ==> Tidy(text) && SettingsOf(text) == Apply(SettingsOf(old(text)), RateSet(rate))
      ensures Tidy(old(text)) ==>
                forall n, seconds: nat :: n > 0 && IsRate(rate, n, seconds) ==>
                  RateIsWritten(Lines(old(text)), Lines(text), rate, n, seconds)
    {
      hide Tidy, SettingsOf, Cleaned, Apply, ParseU32, Terminated, Decimal, Lines, RateIsWritten, IsRate;
      RateAcceptedIff(rate);
      if Tidy(text) {
        RateLinesOf(text, rate);
        StepRefines(text, RateSet(rate));
      }
      var parts := SplitOnce(rate, '/');
      if parts.None? {
        return false;
      }
      var count, period := ParseU32(parts.value.0), PeriodSeconds(parts.value.1);
      if count.None? || count.value == 0 || period.None? {
        return false;
      }
      var delay := period.value / count.value;
      var limit := if count.value < 50 then count.value else 50;
      var cleaned := Cleaned(RateEditor, text);
      var block := [
        RATE_MARK + ": " + rate,
        Setting("smtp_destination_rate_delay", Decimal(delay) + "s"),
        Setting("smtp_extra_recipient_limit", Decimal(limit))
      ];
      text := cleaned + "\n" + Terminated(block);
      return true;
    }

    /** `rate_limit_remove` */
    method RemoveRateLimit()
      modifies this
      ensures text == Step(old(text), RateRemove)
      ensures Tidy(old(text)) ==> Tidy(text) && SettingsOf(text) == Apply(SettingsOf(old(text)), RateRemove)
      ensures Tidy(old(text)) ==>
                Lines(text) ==
                WithoutBlankEnd(Without(Lines(old(text)),
                                        ["smtp_destination_rate_delay", "smtp_extra_recipient_limit"],
                                        ["# DockPanel rate limit"]))
    {
      hide Tidy, SettingsOf, Cleaned, Lines, Without;
      if Tidy(text) {
        RemovalLines(text);
        StepRefines(text, RateRemove);
      }
      text := Cleaned(RateEditor, text);
    }

    /** `rate_limit_status` */
    method RateLimitStatus() returns (configured: bool, rate: string)
      ensures var limit := SettingsOf(text).rate;
              (configured <==> limit.Some?) && rate == (if limit.Some? then limit.value else "")
      ensures (forall k :: 0 <= k < |Lines(text)| ==> !Contains(Lines(text)[k], "# DockPanel rate limit:")) ==>
                !configured
      ensures forall k: nat :: HoldsFirst("# DockPanel rate limit:", Lines(text), k) ==>
                configured && rate == ValueBehind(':', Lines(text)[k])
    {
      hide Lines, Contains, ValueBehind, First;
      LookRate(Lines(text));
      var line := First(Rate, Lines(text));
      configured := line.Some?;
      rate := if line.Some? then Reading(Rate, line.value) else "";
    }

    /** `tls_enforce` */
    method EnforceTls(inbound: string, outbound: string) returns (ok: bool)
      modifies this
      ensures ok <==> inbound in ["may", "encrypt", "none"] && outbound in ["may", "encrypt", "none"]
      ensures text == Step(old(text), TlsSet(inbound, outbound))
      ensures Tidy(old(text)) ==>
              Tidy(text) && SettingsOf(text) == Apply(SettingsOf(old(text)), TlsSet(inbound, outbound))
      ensures ok && Tidy(old(text)) ==>
                Lines(text) ==
                OrBlank(Without(Lines(old(text)), ["smtpd_tls_security_level", "smtp_tls_security_level"], []))
                + ["smtpd_tls_security_level = " + inbound, "smtp_tls_security_level = " + outbound]
    {
      hide Tidy, SettingsOf, Cleaned, Apply, Lines, Without;
      if Tidy(text) {
        TlsEditLines(text, inbound, outbound);
        StepRefines(text, TlsSet(inbound, outbound));
      }
      if inbound !in LEVELS || outbound !in LEVELS {
        return false;
      }
      var cleaned := Cleaned(TlsEditor, text);
      text := cleaned + "\n" + Terminated(TlsBlock(inbound, outbound));
      return true;
    }

    /** `tls_status`, given Dovecot's file. */
    method TlsStatus(dovecotConf: string)
      returns (inbound: string, outbound: string, dovecotSsl: string, inboundEnforced: bool, outboundEnforced: bool)
      ensures var s := SettingsOf(text);
              && inbound == (if s.inbound.Some? then s.inbound.value else "")
              && outbound == (if s.outbound.Some? then s.outbound.value else "")
              && (inboundEnforced <==> s.inbound == Some("encrypt"))
              && (outboundEnforced <==> s.outbound == Some("encrypt"))
      ensures (forall k :: 0 <= k < |Lines(dovecotConf)| ==> !StartsWith(Lines(dovecotConf)[k], "ssl")) ==>
                dovecotSsl == ""
      ensures forall k: nat :: StartsFirst("ssl", Lines(dovecotConf), k) ==>
                dovecotSsl == ValueBehind('=', Lines(dovecotConf)[k])
      ensures var lines := Lines(text);
              && (forall k: nat :: StartsFirst("smtpd_tls_security_level", lines, k) ==>
                    inbound == ValueBehind('=', lines[k]))
              && (forall k: nat :: StartsFirst("smtp_tls_security_level", lines, k) ==>
                    outbound == ValueBehind('=', lines[k]))
    {
      hide Lines, StartsWith, ValueBehind, First;
      LookStarting(Inbound, "smtpd_tls_security_level", Lines(text));
      LookStarting(Outbound, "smtp_tls_security_level", Lines(text));
      var i, o := First(Inbound, Lines(text)), First(Outbound, Lines(text));
      inbound := if i.Some? then Reading(Inbound, i.value) else "";
      outbound := if o.Some? then Reading(Outbound, o.value) else "";
      inboundEnforced, outboundEnforced := inbound == "encrypt", outbound == "encrypt";
      dovecotSsl := DovecotSsl(dovecotConf);
    }

    /** The milter step of `rspamd_install`. */
    method InstallMilter(milter: string) returns (ok: bool)
      modifies this
      ensures ok <==> Added(old(text), milter).Some?
      ensures text == Step(old(text), MilterAdd(milter))
      ensures Tidy(old(text)) && Endpoint(milter) ==> Tidy(text) && SettingsOf(text) == SettingsOf(old(text))
    {
      hide Tidy, SettingsOf, Added, Endpoint;
      if Tidy(text) && Endpoint(milter) {
        StepRefines(text, MilterAdd(milter));
      }
      var changed := AddMilter(text, milter);
      if changed.None? {
        return false;
      }
      if changed.value != text {
        text := changed.value;
      }
      return true;
    }
  }
}
