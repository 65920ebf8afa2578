/**
  Root's crontab as a file shared by every site and the operator: the merge that rewrites one
  site's lines, and the two readers of what it prints.

  `is_safe_cron_command` is the caller's predicate `safe`.
 */
module Crontab {
  import opened Text

  const MARKER := "# dockpanel:"

  datatype CronRequest =
    CronRequest(id: string, command: string, schedule: string, caption: Option<string>, enabled: bool)

  type Check = string -> bool

  // ------------------------------------------------------------ reading a line's id

  /** The first word of a text: `split_whitespace().next()`. */
  function FirstWord(s: string): (r: Option<string>) {
    var t := TrimStart(s);
    if t == [] then None else Some(Word(t))
  }

  /** Up to the first white space. */
  function Word(s: string): (r: string) {
    if s == [] || IsWs(s[0]) then [] else [s[0]] + Word(s[1..])
  }

  /** `marker_id`: the first word between the first marker and the next. */
  function MarkerId(line: string): (r: Option<string>) {
    match Find(line, MARKER)
    case None => None
    case Some(i) =>
      var rest := line[i + |MARKER|..];
      match Find(rest, MARKER)
      case None => FirstWord(rest)
      case Some(j) => FirstWord(rest[..j])
  }

  /**
    The id of a marked line: the first word behind the first marker, if the next marker or the end of the line
    leaves one; a line without a marker has none.
   */
  lemma MarkedLineId(before: string, gap: string, id: string, tail: string, more: string)
    requires var line := before + "# dockpanel:" + (gap + id + tail) + more;
             Find(line, "# dockpanel:") == Some(|before|)
    requires Find(gap + id + tail + more, "# dockpanel:") == if more == [] then None else Some(|gap + id + tail|)
    requires Blank(gap) && (forall k :: 0 <= k < |id| ==> !IsWs(id[k])) && (tail != [] ==> id != [] && IsWs(tail[0]))
    ensures MarkerId(before + "# dockpanel:" + (gap + id + tail) + more) == if id == [] then None else Some(id)
  {
    hide Find;
    var mid := gap + id + tail;
    var line := before + "# dockpanel:" + mid + more;
    assert line[|before| + |MARKER|..] == mid + more;
    assert (mid + more)[..|mid|] == mid && (more == [] ==> mid + more == mid);
    assert mid == gap + (id + tail);
    TrimStartCore(gap, id + tail);
    if tail == [] {
      WordAll(id);
      assert id + tail == id;
    } else {
      WordOf(id, tail);
    }
  }

  lemma {:induction false} WordAll(id: string)
    requires forall k :: 0 <= k < |id| ==> !IsWs(id[k])
    ensures Word(id) == id
  {
    if id != [] {
      WordAll(id[1..]);
      assert id == [id[0]] + id[1..];
    }
  }

  lemma UnmarkedLineHasNoId(line: string)
    ensures !Contains(line, "# dockpanel:") ==> MarkerId(line).None?
  {
  }

  // ------------------------------------------------------------------ the merge

  function SplitWhitespace(s: string): (r: seq<string>)
    decreases |s|
  {
    if s == [] then []
    else if IsWs(s[0]) then SplitWhitespace(s[1..])
    else
      WordLength(s);
      [Word(s)] + SplitWhitespace(s[|Word(s)|..])
  }

  lemma {:induction false} WordLength(s: string)
    ensures |Word(s)| <= |s| && Word(s) == s[..|Word(s)|]
    ensures s != [] && !IsWs(s[0]) ==> Word(s) != []
    ensures |Word(s)| < |s| ==> IsWs(s[|Word(s)|])
  {
    if s != [] && !IsWs(s[0]) {
      WordLength(s[1..]);
      assert s == [s[0]] + s[1..];
    }
  }

  predicate ScheduleChar(c: char) {
    IsDigit(c) || c == '*' || c == '/' || c == '-' || c == ','
  }

  predicate IsValidSchedule(schedule: string) {
    var parts := SplitWhitespace(schedule);
    |parts| == 5 && forall k, j :: 0 <= k < 5 && 0 <= j < |parts[k]| ==> ScheduleChar(parts[k][j])
  }

  datatype Fate = Disabled | Skipped | Scheduled

  function FateOf(c: CronRequest, safe: Check): Fate {
    if !c.enabled then Disabled
    else if !IsValidSchedule(c.schedule) || c.command == [] || !safe(c.command) then Skipped
    else Scheduled
  }

  function Caption(c: CronRequest): string {
    if c.caption.Some? then c.caption.value else ""
  }

  /** One scheduled job's line. */
  function Print(c: CronRequest): string {
    c.schedule + " " + c.command + " " + MARKER + c.id + " " + Caption(c)
  }

  function Printed(crons: seq<CronRequest>, safe: Check): (r: seq<string>) {
    if crons == [] then []
    else (if FateOf(crons[0], safe).Scheduled? then [Print(crons[0])] else []) + Printed(crons[1..], safe)
  }

  function Ids(crons: seq<CronRequest>): set<string> {
    set k | 0 <= k < |crons| :: crons[k].id
  }

  predicate Foreign(line: string, owned: set<string>) {
    MarkerId(line).None? || MarkerId(line).value !in owned
  }

  function Unowned(owned: set<string>): string -> bool {
    line => Foreign(line, owned)
  }

  /** The lines a payload does not own. */
  function Kept(lines: seq<string>, owned: set<string>): seq<string> {
    Filter(Unowned(owned), lines)
  }

  /** `write_crontab`: the lines joined, and one LF. */
  function WriteCrontab(lines: seq<string>): string {
    Join(lines) + "\n"
  }

  function Sync(file: string, crons: seq<CronRequest>, safe: Check): string {
    WriteCrontab(Kept(Lines(file), Ids(crons)) + Printed(crons, safe))
  }

  function SkippedIds(crons: seq<CronRequest>, safe: Check): (r: seq<string>) {
    if crons == [] then []
    else (if FateOf(crons[0], safe).Skipped? then [crons[0].id] else []) + SkippedIds(crons[1..], safe)
  }

  function DisabledCount(crons: seq<CronRequest>, safe: Check): nat {
    if crons == [] then 0 else (if FateOf(crons[0], safe).Disabled? then 1 else 0) + DisabledCount(crons[1..], safe)
  }

  // ------------------------------------------------------ which jobs are scheduled

  /** Words with white space between them, some or none before the first and after the last. */
  function Woven(words: seq<string>, gaps: seq<string>): string
    requires |gaps| == |words| + 1
  {
    if words == [] then gaps[0] else gaps[0] + words[0] + Woven(words[1..], gaps[1..])
  }

  predicate IsWord(word: string) {
    word != [] && forall k :: 0 <= k < |word| ==> !IsWs(word[k])
  }

  predicate Separates(words: seq<string>, gaps: seq<string>) {
    && |gaps| == |words| + 1
    && (forall k :: 0 <= k < |gaps| ==> Blank(gaps[k])) && (forall k :: 1 <= k < |words| ==> gaps[k] != [])
  }

  lemma {:induction false} SplitSkipsBlank(w: string, s: string)
    requires Blank(w)
    ensures SplitWhitespace(w + s) == SplitWhitespace(s)
  {
    if w == [] {
      assert w + s == s;
    } else {
      assert (w + s)[1..] == w[1..] + s;
      SplitSkipsBlank(w[1..], s);
    }
  }

  lemma SplitsWord(word: string, rest: string)
    requires IsWord(word) && (rest != [] ==> IsWs(rest[0]))
    ensures SplitWhitespace(word + rest) == [word] + SplitWhitespace(rest)
  {
    if rest == [] {
      WordAll(word);
      assert word + rest == word && word[|word|..] == rest;
    } else {
      WordOf(word, rest);
      assert (word + rest)[|word|..] == rest;
    }
  }

  /** Words come apart at their gaps. */
  lemma {:induction false} SplitsWoven(words: seq<string>, gaps: seq<string>)
    requires Separates(words, gaps) && forall k :: 0 <= k < |words| ==> IsWord(words[k])
    ensures SplitWhitespace(Woven(words, gaps)) == words
    decreases |words|
  {
    hide SplitWhitespace, IsWord, Blank;
    assert Blank(gaps[0]);
    if words == [] {
      SplitSkipsBlank(gaps[0], []);
      assert gaps[0] + [] == gaps[0];
      SplitsNothing();
    } else {
      var rest := Woven(words[1..], gaps[1..]);
      assert Separates(words[1..], gaps[1..]) by {
        assert forall k :: 0 <= k < |gaps[1..]| ==> gaps[1..][k] == gaps[k + 1];
      }
      assert forall k :: 0 <= k < |words[1..]| ==> words[1..][k] == words[k + 1];
      SplitsWoven(words[1..], gaps[1..]);
      WovenStart(words[1..], gaps[1..]);
      SplitSkipsBlank(gaps[0], words[0] + rest);
      SplitsWord(words[0], rest);
      assert gaps[0] + words[0] + rest == gaps[0] + (words[0] + rest);
    }
  }

  lemma SplitsNothing()
    ensures SplitWhitespace([]) == []
  {
  }

  lemma WovenStart(words: seq<string>, gaps: seq<string>)
    requires |gaps| == |words| + 1 && Blank(gaps[0]) && (words != [] ==> gaps[0] != [])
    ensures Woven(words, gaps) != [] ==> IsWs(Woven(words, gaps)[0])
  {
  }

  lemma WidenGap(words: seq<string>, gaps: seq<string>, c: char)
    requires Separates(words, gaps) && IsWs(c)
    ensures var wide := gaps[0 := [c] + gaps[0]];
            Separates(words, wide) && Woven(words, wide) == [c] + Woven(words, gaps)
  {
    hide IsWs;
    var wide := gaps[0 := [c] + gaps[0]];
    assert Blank(gaps[0]) && Blank(wide[0]);
    assert wide[1..] == gaps[1..];
    if words != [] {
      assert [c] + gaps[0] + words[0] + Woven(words[1..], gaps[1..]) == [c] + Woven(words, gaps);
    }
  }

  lemma OneMoreWord(word: string, words: seq<string>, gaps: seq<string>)
    requires Separates(words, gaps) && (words != [] ==> gaps[0] != [])
    ensures Separates([word] + words, [[]] + gaps) && Woven([word] + words, [[]] + gaps) == word + Woven(words, gaps)
  {
    hide IsWs;
    var w, g := [word] + words, [[]] + gaps;
    assert w[1..] == words && g[1..] == gaps && [] + word == word;
    assert forall k :: 1 <= k < |g| ==> g[k] == gaps[k - 1];
  }

  /** Every text is its words with gaps between them. */
  lemma {:induction false} WovenOfSplit(s: string) returns (gaps: seq<string>)
    ensures Separates(SplitWhitespace(s), gaps) && Woven(SplitWhitespace(s), gaps) == s
    ensures forall k :: 0 <= k < |SplitWhitespace(s)| ==> IsWord(SplitWhitespace(s)[k])
    ensures s != [] && IsWs(s[0]) ==> gaps[0] != []
    decreases |s|
  {
    hide Word, Woven, IsWs, IsWord, Separates;
    if s == [] {
      gaps := [[]];
      NoWords();
    } else if IsWs(s[0]) {
      var more := WovenOfSplit(s[1..]);
      GapCount(SplitWhitespace(s), more);
      gaps := more[0 := [s[0]] + more[0]];
      WidenGap(SplitWhitespace(s), more, s[0]);
      assert s == [s[0]] + s[1..];
    } else {
      WordLength(s);
      WordHasNoWs(s);
      var n := |Word(s)|;
      var words := SplitWhitespace(s[n..]);
      var more := WovenOfSplit(s[n..]);
      GapCount(words, more);
      SplitsNothing();
      OneMoreWord(Word(s), words, more);
      gaps := [[]] + more;
      assert Word(s) + s[n..] == s && SplitWhitespace(s) == [Word(s)] + words;
    }
  }

  lemma NoWords()
    ensures Separates([], [[]]) && Woven([], [[]]) == []
  {
  }

  lemma GapCount(words: seq<string>, gaps: seq<string>)
    requires Separates(words, gaps)
    ensures |gaps| == |words| + 1
  {
  }

  lemma {:induction false} WordHasNoWs(s: string)
    ensures forall k :: 0 <= k < |Word(s)| ==> !IsWs(Word(s)[k])
    ensures s != [] && !IsWs(s[0]) ==> IsWord(Word(s))
  {
    if s != [] && !IsWs(s[0]) {
      WordHasNoWs(s[1..]);
    }
  }

  predicate ScheduleField(field: string) {
    field != [] && forall k :: 0 <= k < |field| ==> '0' <= field[k] <= '9' || field[k] in "*/-,"
  }

  /** Five fields of digits, stars, slashes, dashes and commas, with white space between them. */
  ghost predicate FiveFields(schedule: string) {
    exists fields, gaps ::
      && |fields| == 5 && Separates(fields, gaps) && schedule == Woven(fields, gaps)
      && forall k :: 0 <= k < 5 ==> ScheduleField(fields[k])
  }

  lemma FieldIsWord(field: string)
    requires field != []
    ensures ScheduleField(field) <==> forall k :: 0 <= k < |field| ==> ScheduleChar(field[k])
    ensures ScheduleField(field) ==> IsWord(field)
  {
  }

  /** A schedule is valid exactly when it is made of five such fields. */
  lemma ValidIffFiveFields(schedule: string)
    ensures IsValidSchedule(schedule) <==> FiveFields(schedule)
  {
    hide SplitWhitespace, Woven, ScheduleField, Blank, IsWord, ScheduleChar;
    if IsValidSchedule(schedule) {
      var fields := SplitWhitespace(schedule);
      var gaps := WovenOfSplit(schedule);
      forall k | 0 <= k < 5 ensures ScheduleField(fields[k]) {
        WordNotEmpty(fields[k]);
        FieldIsWord(fields[k]);
      }
    }
    if FiveFields(schedule) {
      var fields, gaps :| && |fields| == 5 && Separates(fields, gaps) && schedule == Woven(fields, gaps)
                          && forall k :: 0 <= k < 5 ==> ScheduleField(fields[k]);
      forall k | 0 <= k < 5 ensures IsWord(fields[k]) {
        FieldNotEmpty(fields[k]);
        FieldIsWord(fields[k]);
      }
      SplitsWoven(fields, gaps);
      forall k, j | 0 <= k < 5 && 0 <= j < |fields[k]| ensures ScheduleChar(fields[k][j]) {
        FieldIsWord(fields[k]);
      }
    }
  }

  lemma WordNotEmpty(word: string)
    requires IsWord(word)
    ensures word != []
  {
  }

  lemma FieldNotEmpty(field: string)
    requires ScheduleField(field)
    ensures field != []
  {
  }

  /** What a job needs besides being enabled to get its line. */
  ghost predicate Acceptable(c: CronRequest, safe: Check) {
    FiveFields(c.schedule) && c.command != "" && safe(c.command)
  }

  lemma FateMeans(c: CronRequest, safe: Check)
    ensures FateOf(c, safe).Scheduled? <==> c.enabled && Acceptable(c, safe)
    ensures FateOf(c, safe).Skipped? <==> c.enabled && !Acceptable(c, safe)
    ensures FateOf(c, safe).Disabled? <==> !c.enabled
  {
    hide IsValidSchedule, FiveFields;
    ValidIffFiveFields(c.schedule);
  }

  /** The jobs of a payload that get a line, and those that are skipped, in order. */
  ghost function Accepted(crons: seq<CronRequest>, safe: Check): seq<CronRequest> {
    Filter((c: CronRequest) => c.enabled && Acceptable(c, safe), crons)
  }

  ghost function Refused(crons: seq<CronRequest>, safe: Check): seq<CronRequest> {
    Filter((c: CronRequest) => c.enabled && !Acceptable(c, safe), crons)
  }

  function JobLine(c: CronRequest): string {
    c.schedule + " " + c.command + " # dockpanel:" + c.id + " " + match c.caption case Some(s) => s case None => ""
  }

  function JobLines(crons: seq<CronRequest>): seq<string> {
    seq(|crons|, i requires 0 <= i < |crons| => JobLine(crons[i]))
  }

  function JobIds(crons: seq<CronRequest>): seq<string> {
    seq(|crons|, i requires 0 <= i < |crons| => crons[i].id)
  }

  lemma PrintIsJobLine(c: CronRequest)
    ensures Print(c) == JobLine(c)
  {
    assert " # dockpanel:" == " " + MARKER;
  }

  /** The loop's lists are those of the accepted and the refused jobs. */
  lemma {:induction false} ListsMean(crons: seq<CronRequest>, safe: Check)
    ensures Printed(crons, safe) == JobLines(Accepted(crons, safe))
    ensures SkippedIds(crons, safe) == JobIds(Refused(crons, safe))
    ensures |crons| == |Accepted(crons, safe)| + |Refused(crons, safe)| + DisabledCount(crons, safe)
  {
    hide FateOf, Acceptable, Print, JobLine;
    if crons != [] {
      ListsMean(crons[1..], safe);
      FateMeans(crons[0], safe);
      PrintIsJobLine(crons[0]);
      var c, yes, no := crons[0], Accepted(crons[1..], safe), Refused(crons[1..], safe);
      assert JobLines([c] + yes) == [JobLine(c)] + JobLines(yes);
      assert JobIds([c] + no) == [c.id] + JobIds(no);
      assert [] + yes == yes && [] + no == no;
      assert [] + JobLines(yes) == JobLines(yes) && [] + JobIds(no) == JobIds(no);
    }
  }

  /** The lines whose id was not sent. */
  ghost function NotSent(lines: seq<string>, crons: seq<CronRequest>): seq<string> {
    Filter((line: string) => forall c :: c in crons ==> MarkerId(line) != Some(c.id), lines)
  }

  lemma {:induction false} KeptAreNotSent(lines: seq<string>, crons: seq<CronRequest>)
    ensures Kept(lines, Ids(crons)) == NotSent(lines, crons)
  {
    hide MarkerId;
    if lines != [] {
      KeptAreNotSent(lines[1..], crons);
    }
  }

  method KeepForeign(lines: seq<string>, owned: set<string>) returns (kept: seq<string>)
    ensures kept == Kept(lines, owned)
  {
    hide MarkerId, Foreign;
    kept := [];
    var i := 0;
    assert lines[0..] == lines;
    while i < |lines|
      invariant i <= |lines| && kept + Kept(lines[i..], owned) == Kept(lines, owned)
    {
      assert lines[i..][1..] == lines[i + 1..];
      if Foreign(lines[i], owned) {
        kept := kept + [lines[i]];
      }
      i := i + 1;
    }
    assert kept + [] == kept;
  }

  /**
    `sync_crons`: the new file, and what it reports. A job gets its line exactly when it is enabled and its
    schedule, its command and the filter's word on it are in order; the other enabled ones are named.
   */
  method SyncCrons(existing: string, crons: seq<CronRequest>, safe: Check)
    returns (file: string, synced: nat, skipped: seq<string>)
    ensures file == Join(NotSent(Lines(existing), crons) + JobLines(Accepted(crons, safe))) + "\n"
    ensures skipped == JobIds(Refused(crons, safe)) && synced == |Accepted(crons, safe)|
    ensures file == Sync(existing, crons, safe)
  {
    hide Lines, Join, Kept, Print, IsValidSchedule, NotSent, Accepted, Refused, JobLines, JobIds;
    hide Printed, SkippedIds, DisabledCount, FateOf, Ids;
    ListsMean(crons, safe);
    KeptAreNotSent(Lines(existing), crons);
    var lines := KeepForeign(Lines(existing), Ids(crons));
    ghost var kept := lines;
    var disabled := 0;
    skipped := [];
    var i := 0;
    assert crons[0..] == crons;
    while i < |crons|
      invariant i <= |crons|
      invariant lines + Printed(crons[i..], safe) == kept + Printed(crons, safe)
      invariant disabled + DisabledCount(crons[i..], safe) == DisabledCount(crons, safe)
      invariant skipped + SkippedIds(crons[i..], safe) == SkippedIds(crons, safe)
    {
      var cron := crons[i];
      OneMoreJob(crons, i, safe);
      i := i + 1;
      if !cron.enabled {
        disabled := disabled + 1;
        continue;
      }
      if !IsValidSchedule(cron.schedule) || cron.command == [] || !safe(cron.command) {
        skipped := skipped + [cron.id];
        continue;
      }
      lines := lines + [Print(cron)];
    }
    NoMoreJobs(safe);
    assert crons[i..] == [] && lines + [] == lines && skipped + [] == skipped;
    file := WriteCrontab(lines);
    IdCount(Refused(crons, safe));
    synced := |crons| - |skipped| - disabled;
  }

  lemma OneMoreJob(crons: seq<CronRequest>, i: nat, safe: Check)
    requires i < |crons|
    ensures var c, rest := crons[i], crons[i + 1..];
            var skip := !IsValidSchedule(c.schedule) || c.command == [] || !safe(c.command);
            && Printed(crons[i..], safe) == (if c.enabled && !skip then [Print(c)] else []) + Printed(rest, safe)
            && SkippedIds(crons[i..], safe) == (if c.enabled && skip then [c.id] else []) + SkippedIds(rest, safe)
            && DisabledCount(crons[i..], safe) == (if c.enabled then 0 else 1) + DisabledCount(rest, safe)
  {
    hide IsValidSchedule, Print;
    assert crons[i..][1..] == crons[i + 1..];
  }

  lemma NoMoreJobs(safe: Check)
    ensures Printed([], safe) == [] && SkippedIds([], safe) == [] && DisabledCount([], safe) == 0
  {
  }

  lemma IdCount(crons: seq<CronRequest>)
    ensures |JobIds(crons)| == |crons|
  {
  }

  /** `remove_cron` */
  function Remove(file: string, id: string): string {
    WriteCrontab(Kept(Lines(file), {id}))
  }

  // ------------------------------------------------------------- printed lines

  /** What the fields of a scheduled job are assumed to hold. (Only the command is checked before printing.) */
  predicate Clean(c: CronRequest) {
    && c.id != [] && (forall k :: 0 <= k < |c.id| ==> !IsWs(c.id[k]))
    && !Contains(c.command, MARKER) && !Contains(c.id + " " + Caption(c), MARKER)
    && OneLine(c.schedule) && OneLine(c.command) && OneLine(Caption(c)) && !EndsWithCr(Caption(c))
  }

  ghost predicate AllClean(crons: seq<CronRequest>, safe: Check) {
    forall k :: 0 <= k < |crons| && crons[k].enabled && Acceptable(crons[k], safe) ==> Clean(crons[k])
  }

  lemma {:induction false} ScheduleChars(s: string, parts: seq<string>)
    requires parts == SplitWhitespace(s)
    requires forall k, j :: 0 <= k < |parts| && 0 <= j < |parts[k]| ==> ScheduleChar(parts[k][j])
    ensures forall i :: 0 <= i < |s| ==> IsWs(s[i]) || ScheduleChar(s[i])
    decreases |s|
  {
    if s != [] {
      if IsWs(s[0]) {
        ScheduleChars(s[1..], parts);
        assert s == [s[0]] + s[1..];
      } else {
        WordLength(s);
        var n := |Word(s)|;
        assert parts[0] == s[..n] && parts == [parts[0]] + parts[1..];
        forall k, j | 0 <= k < |parts[1..]| && 0 <= j < |parts[1..][k]| ensures ScheduleChar(parts[1..][k][j]) {
          assert parts[1..][k] == parts[k + 1];
        }
        ScheduleChars(s[n..], parts[1..]);
        forall i | 0 <= i < |s| ensures IsWs(s[i]) || ScheduleChar(s[i]) {
          if i < n { assert s[i] == parts[0][i]; } else { assert s[i] == s[n..][i - n]; }
        }
      }
    }
  }

  lemma ScheduleHasNoHash(s: string)
    requires IsValidSchedule(s)
    ensures '#' !in s && s != []
  {
    ScheduleChars(s, SplitWhitespace(s));
  }

  lemma DiffersAt(s: string, i: nat, p: string, k: nat)
    requires k < |p| && i + k < |s| && s[i + k] != p[k]
    ensures !HasAt(s, i, p)
  {
    if i + |p| <= |s| {
      assert s[i..i + |p|][k] == s[i + k];
    }
  }

  /** The first marker of a printed line is the one the printer put there. */
  lemma MarkerPlace(schedule: string, command: string, after: string)
    requires '#' !in schedule && !Contains(command, MARKER)
    ensures Find(schedule + " " + command + " " + MARKER + after, MARKER) == Some(|schedule| + |command| + 2)
  {
    var line := schedule + " " + command + " " + MARKER + after;
    var at := |schedule| + |command| + 2;
    assert line[at..at + |MARKER|] == MARKER;
    assert HasAt(line, at, MARKER);
    forall i | 0 <= i < at ensures !HasAt(line, i, MARKER) {
      NoEarlierMarker(schedule, command, after, i);
    }
  }

  lemma NoEarlierMarker(schedule: string, command: string, after: string, i: nat)
    requires '#' !in schedule && !Contains(command, MARKER) && i < |schedule| + |command| + 2
    ensures !HasAt(schedule + " " + command + " " + MARKER + after, i, MARKER)
  {
    var line := schedule + " " + command + " " + MARKER + after;
    var n, m := |schedule|, |MARKER|;
    var at, end := n + |command| + 2, i + m - 1;
    if i <= n {
      assert line[i] == (schedule + " ")[i];
      DiffersAt(line, i, MARKER, 0);
    } else if end >= at {
      assert line[end] == MARKER[end - at];
      DiffersAt(line, i, MARKER, m - 1);
    } else if end == at - 1 {
      assert line[end] == ' ';
      DiffersAt(line, i, MARKER, m - 1);
    } else {
      assert !HasAt(command, i - n - 1, MARKER);
      assert line[i..i + m] == command[i - n - 1..i - n - 1 + m];
    }
  }

  lemma {:induction false} WordOf(id: string, rest: string)
    requires (forall k :: 0 <= k < |id| ==> !IsWs(id[k])) && rest != [] && IsWs(rest[0])
    ensures Word(id + rest) == id
  {
    if id == [] {
      assert id + rest == rest;
    } else {
      assert (id + rest)[1..] == id[1..] + rest;
      WordOf(id[1..], rest);
    }
  }

  /** A printed line belongs to the job it was printed for. */
  lemma PrintedId(c: CronRequest)
    requires IsValidSchedule(c.schedule) && Clean(c)
    ensures MarkerId(Print(c)) == Some(c.id)
  {
    hide IsValidSchedule, Find;
    var after := c.id + " " + Caption(c);
    ScheduleHasNoHash(c.schedule);
    MarkerPlace(c.schedule, c.command, after);
    var line := c.schedule + " " + c.command + " " + MARKER + after;
    assert Print(c) == line;
    var at := |c.schedule| + |c.command| + 2;
    assert line[at + |MARKER|..] == after;
    assert TrimStart(after) == after;
    WordOf(c.id, " " + Caption(c));
    assert after == c.id + (" " + Caption(c));
  }

  lemma PrintedIsOneLine(c: CronRequest)
    requires Clean(c)
    ensures OneLine(Print(c)) && !EndsWithCr(Print(c)) && Print(c) != []
  {
    hide Contains;
    var before := c.schedule + " " + c.command + " " + MARKER + c.id + " ";
    assert Print(c) == before + Caption(c);
    assert '\n' !in before && before[|before| - 1] == ' ';
    assert Caption(c) != [] ==> Print(c)[|Print(c)| - 1] == Caption(c)[|Caption(c)| - 1];
  }

  // ------------------------------------------------------------- lines of the file

  /** A carriage return at the end of a line does not change whose line it is. */
  lemma MarkerIgnoresCr(line: string)
    ensures MarkerId(StripCr(line)) == MarkerId(line)
  {
    hide Find, FirstWord;
    if EndsWithCr(line) {
      var s := line[..|line| - 1];
      assert line == s + ['\r'] && '\r' !in MARKER;
      FindIgnoresEnd(s, MARKER, '\r');
      if Find(line, MARKER).Some? {
        var i := Find(line, MARKER).value;
        var rest, rest' := line[i + |MARKER|..], s[i + |MARKER|..];
        assert rest == rest' + ['\r'];
        FindIgnoresEnd(rest', MARKER, '\r');
        FirstWordIgnoresCr(rest');
        if Find(rest', MARKER).Some? {
          var j := Find(rest', MARKER).value;
          assert rest[..j] == rest'[..j];
        }
      }
    }
  }

  lemma {:induction false} FirstWordIgnoresCr(s: string)
    ensures FirstWord(s + ['\r']) == FirstWord(s)
  {
    if s == [] {
      assert [] + ['\r'] == ['\r'] && ['\r'][1..] == [];
    } else {
      assert (s + ['\r'])[1..] == s[1..] + ['\r'];
      if IsWs(s[0]) {
        FirstWordIgnoresCr(s[1..]);
      } else {
        WordIgnoresCr(s);
      }
    }
  }

  lemma {:induction false} WordIgnoresCr(s: string)
    ensures Word(s + ['\r']) == Word(s)
  {
    if s != [] {
      assert (s + ['\r'])[1..] == s[1..] + ['\r'];
      WordIgnoresCr(s[1..]);
    }
  }

  lemma {:induction false} KeptStripped(lines: seq<string>, owned: set<string>)
    ensures Kept(StripAll(lines), owned) == StripAll(Kept(lines, owned))
  {
    hide MarkerId, StripCr;
    if lines != [] {
      MarkerIgnoresCr(lines[0]);
      KeptStripped(lines[1..], owned);
      assert StripAll(lines)[1..] == StripAll(lines[1..]);
      var rest := Kept(lines[1..], owned);
      assert [] + rest == rest && ([lines[0]] + rest)[1..] == rest;
    }
  }

  lemma WrittenReadsBack(lines: seq<string>)
    requires AllOneLine(lines)
    ensures Lines(WriteCrontab(lines)) == OrBlank(StripAll(lines))
  {
    LinesOfAnyJoined(lines);
    assert Join(lines) + ['\n'] == WriteCrontab(lines);
  }

  lemma {:induction false} PrintedLines(crons: seq<CronRequest>, safe: Check)
    requires AllClean(crons, safe)
    ensures AllOneLine(Printed(crons, safe)) && NoCr(Printed(crons, safe))
    ensures forall k :: 0 <= k < |Printed(crons, safe)| ==>
              MarkerId(Printed(crons, safe)[k]).Some? && MarkerId(Printed(crons, safe)[k]).value in Ids(crons)
  {
    hide MarkerId, Print, Clean;
    if crons != [] {
      var c := crons[0];
      assert AllClean(crons[1..], safe) by {
        assert forall k :: 0 <= k < |crons[1..]| ==> crons[1..][k] == crons[k + 1];
      }
      PrintedLines(crons[1..], safe);
      assert c.id in Ids(crons) && Ids(crons[1..]) <= Ids(crons) by {
        assert forall k :: 0 <= k < |crons[1..]| ==> crons[1..][k] == crons[k + 1];
      }
      FateMeans(c, safe);
      if FateOf(c, safe).Scheduled? {
        PrintedId(c);
        PrintedIsOneLine(c);
      }
    }
  }

  lemma KeptConcat(a: seq<string>, b: seq<string>, owned: set<string>)
    ensures Kept(a + b, owned) == Kept(a, owned) + Kept(b, owned)
  {
    FilterConcat(Unowned(owned), a, b);
  }

  lemma KeptLines(lines: seq<string>, owned: set<string>)
    ensures forall k :: 0 <= k < |Kept(lines, owned)| ==>
            Foreign(Kept(lines, owned)[k], owned) && Kept(lines, owned)[k] in lines
    ensures (forall k :: 0 <= k < |lines| ==> Foreign(lines[k], owned)) ==> Kept(lines, owned) == lines
    ensures (forall k :: 0 <= k < |lines| ==> !Foreign(lines[k], owned)) ==> Kept(lines, owned) == []
  {
    hide Foreign;
    if forall k :: 0 <= k < |lines| ==> Foreign(lines[k], owned) {
      FilterAll(Unowned(owned), lines);
    }
    if forall k :: 0 <= k < |lines| ==> !Foreign(lines[k], owned) {
      FilterNone(Unowned(owned), lines);
    }
  }

  lemma KeptIsOneLine(lines: seq<string>, owned: set<string>)
    requires AllOneLine(lines)
    ensures AllOneLine(Kept(lines, owned))
  {
    hide MarkerId;
    KeptLines(lines, owned);
    var kept := Kept(lines, owned);
    forall k | 0 <= k < |kept| ensures OneLine(kept[k]) {
      var j :| 0 <= j < |lines| && lines[j] == kept[k];
    }
  }

  /** A payload's own printed lines are all its own; with other ids, none of them is. */
  lemma KeptOfPrinted(crons: seq<CronRequest>, safe: Check, owned: set<string>)
    requires AllClean(crons, safe)
    ensures Ids(crons) <= owned ==> Kept(Printed(crons, safe), owned) == []
    ensures Ids(crons) !! owned ==> Kept(Printed(crons, safe), owned) == Printed(crons, safe)
  {
    PrintedLines(crons, safe);
    KeptLines(Printed(crons, safe), owned);
  }

  /** The lines a synced file has when it is read again (a blank one, if none). */
  function Merged(lines: seq<string>, crons: seq<CronRequest>, safe: Check): seq<string> {
    StripAll(Kept(lines, Ids(crons))) + Printed(crons, safe)
  }

  /**
    The lines of a synced file: what the payload does not own, in order and unchanged but for one final carriage
    return, then one line per scheduled job.
   */
  lemma SyncedLines(file: string, crons: seq<CronRequest>, safe: Check)
    requires AllClean(crons, safe)
    ensures Lines(Sync(file, crons, safe)) == OrBlank(Merged(Lines(file), crons, safe))
  {
    hide Lines, Kept, Printed, MarkerId, AllClean;
    var kept, printed := Kept(Lines(file), Ids(crons)), Printed(crons, safe);
    KeptIsOneLine(Lines(file), Ids(crons));
    PrintedLines(crons, safe);
    AllOneLineConcat(kept, printed);
    WrittenReadsBack(kept + printed);
    StripAllConcat(kept, printed);
    StrippingShortens(printed);
  }

  lemma AllOneLineConcat(a: seq<string>, b: seq<string>)
    requires AllOneLine(a) && AllOneLine(b)
    ensures AllOneLine(a + b)
  {
  }

  /** Some job of the payload has this line's id. */
  ghost predicate Sent(line: string, crons: seq<CronRequest>) {
    exists c :: c in crons && MarkerId(line) == Some(c.id)
  }

  /** Some enabled job of the payload that is in order has this very line. */
  ghost predicate Due(line: string, crons: seq<CronRequest>, safe: Check) {
    exists c :: c in crons && c.enabled && Acceptable(c, safe) && line == JobLine(c)
  }

  lemma SentIff(line: string, crons: seq<CronRequest>)
    ensures Sent(line, crons) <==> !Foreign(line, Ids(crons))
  {
    hide MarkerId;
    if k :| 0 <= k < |crons| && MarkerId(line) == Some(crons[k].id) {
      assert crons[k] in crons;
    }
  }

  lemma {:induction false} DueIff(line: string, crons: seq<CronRequest>, safe: Check)
    ensures line in Printed(crons, safe) <==> Due(line, crons, safe)
  {
    hide FateOf, Acceptable, Print, JobLine;
    if crons != [] {
      DueIff(line, crons[1..], safe);
      FateMeans(crons[0], safe);
      PrintIsJobLine(crons[0]);
      assert crons[0] in crons && forall c :: c in crons <==> c == crons[0] || c in crons[1..];
    }
  }

  /** After a sync the lines of the ids that were sent are exactly the lines of the jobs that are due. */
  lemma SentLinesAreDue(file: string, crons: seq<CronRequest>, safe: Check, line: string)
    requires AllClean(crons, safe)
    ensures line in Lines(Sync(file, crons, safe)) && Sent(line, crons) <==> Due(line, crons, safe)
  {
    hide Lines, Kept, Printed, MarkerId, AllClean, Sync, Sent, Due, Foreign;
    var kept := Kept(Lines(file), Ids(crons));
    SyncedLines(file, crons, safe);
    SentIff(line, crons);
    DueIff(line, crons, safe);
    PrintedLines(crons, safe);
    KeptLines(Lines(file), Ids(crons));
    BlankIsForeign(Ids(crons));
    if line in StripAll(kept) {
      var k :| 0 <= k < |kept| && line == StripCr(kept[k]);
      MarkerIgnoresCr(kept[k]);
      SameOwner(kept[k], line, Ids(crons));
    }
    if line in Printed(crons, safe) {
      PrintedIsOwned(line, Ids(crons));
    }
  }

  lemma SameOwner(a: string, b: string, owned: set<string>)
    requires MarkerId(a) == MarkerId(b)
    ensures Foreign(a, owned) <==> Foreign(b, owned)
  {
  }

  lemma PrintedIsOwned(line: string, owned: set<string>)
    requires MarkerId(line).Some? && MarkerId(line).value in owned
    ensures !Foreign(line, owned)
  {
  }

  lemma BlankIsForeign(owned: set<string>)
    ensures Foreign("", owned) && Kept([""], owned) == [""]
  {
    assert [""][1..] == [];
  }

  /**
    What a sync leaves of the lines of ids that were not sent: all of them, in order (a file left with no line
    at all gains a blank one).
   */
  lemma ForeignLines(file: string, crons: seq<CronRequest>, safe: Check)
    requires AllClean(crons, safe)
    ensures Kept(Lines(Sync(file, crons, safe)), Ids(crons)) ==
            if Merged(Lines(file), crons, safe) == [] then [""] else StripAll(Kept(Lines(file), Ids(crons)))
  {
    hide Lines, Foreign, Printed, Kept, StripAll;
    SyncedLines(file, crons, safe);
    var kept, owned := Kept(Lines(file), Ids(crons)), Ids(crons);
    KeptLines(Lines(file), owned);
    KeptLines(kept, owned);
    KeptStripped(kept, owned);
    KeptConcat(StripAll(kept), Printed(crons, safe), owned);
    KeptOfPrinted(crons, safe, owned);
    BlankIsForeign(owned);
    assert StripAll(kept) + [] == StripAll(kept);
  }

  /**
    Lines of ids that were not sent survive a sync unchanged and in order exactly when none of them still ends
    in a carriage return and the file is left with some line.
   */
  lemma ForeignLinesSurvive(file: string, crons: seq<CronRequest>, safe: Check)
    requires AllClean(crons, safe)
    ensures Kept(Lines(Sync(file, crons, safe)), Ids(crons)) == Kept(Lines(file), Ids(crons)) <==>
            NoCr(Kept(Lines(file), Ids(crons))) && Merged(Lines(file), crons, safe) != []
  {
    hide Lines, Printed, Kept;
    ForeignLines(file, crons, safe);
    var kept := Kept(Lines(file), Ids(crons));
    StrippingShortens(kept);
    assert |StripAll(kept)| == |kept|;
  }

  /** Syncing the same payload again changes nothing exactly when no foreign line still ends in a carriage return. */
  lemma SyncIsIdempotentIff(file: string, crons: seq<CronRequest>, safe: Check)
    requires AllClean(crons, safe)
    ensures Sync(Sync(file, crons, safe), crons, safe) == Sync(file, crons, safe) <==>
            NoCr(Kept(Lines(file), Ids(crons)))
  {
    hide Lines, Foreign, Printed, Kept, MarkerId;
    ForeignLines(file, crons, safe);
    var kept, printed := Kept(Lines(file), Ids(crons)), Printed(crons, safe);
    if Merged(Lines(file), crons, safe) == [] {
      assert [""] + [] == [""] && Join([""]) == "" && Join([]) == "";
      assert kept + printed == [] && [""] + printed == [""];
    } else {
      PrintedLines(crons, safe);
      SameWritten(kept, printed);
    }
  }

  lemma SameWritten(kept: seq<string>, printed: seq<string>)
    requires NoCr(printed) && kept + printed != []
    ensures WriteCrontab(StripAll(kept) + printed) == WriteCrontab(kept + printed) <==> NoCr(kept)
  {
    hide StripCr;
    StrippingShortens(kept + printed);
    StrippingShortens(kept);
    StrippingShortens(printed);
    StripAllConcat(kept, printed);
    TerminatedIsJoin(kept + printed);
    TerminatedIsJoin(StripAll(kept) + printed);
    assert NoCr(kept + printed) ==> NoCr(kept) by {
      assert forall k :: 0 <= k < |kept| ==> (kept + printed)[k] == kept[k];
    }
  }

  // ------------------------------------------------------------------ two payloads

  lemma KeptTwice(lines: seq<string>, a: set<string>, b: set<string>)
    ensures Kept(Kept(lines, a), b) == Kept(lines, a + b) && Kept(lines, a + b) == Kept(lines, b + a)
  {
    hide MarkerId;
    FilterTwice(Unowned(a), Unowned(b), Unowned(a + b), lines);
    assert a + b == b + a;
  }

  /** The foreign lines after two syncs. */
  function KeptByBoth(lines: seq<string>, a: seq<CronRequest>, b: seq<CronRequest>): seq<string> {
    StripAll(StripAll(Kept(lines, Ids(a) + Ids(b))))
  }

  /** The second of two syncs with disjoint ids, when the first left some line. */
  lemma MergedTwice(lines: seq<string>, a: seq<CronRequest>, b: seq<CronRequest>, safe: Check)
    requires AllClean(a, safe) && Ids(a) !! Ids(b)
    ensures Merged(Merged(lines, a, safe), b, safe) == KeptByBoth(lines, a, b) + Printed(a, safe) + Printed(b, safe)
  {
    hide Foreign, Printed, Kept, StripCr, MarkerId;
    var kept, printed := Kept(lines, Ids(a)), Printed(a, safe);
    KeptConcat(StripAll(kept), printed, Ids(b));
    KeptStripped(kept, Ids(b));
    KeptTwice(lines, Ids(a), Ids(b));
    KeptOfPrinted(a, safe, Ids(b));
    PrintedLines(a, safe);
    StripAllConcat(StripAll(Kept(lines, Ids(a) + Ids(b))), printed);
    StrippingShortens(printed);
  }

  /** Two syncs in a row, as lines. */
  function Both(lines: seq<string>, a: seq<CronRequest>, b: seq<CronRequest>, safe: Check): seq<string> {
    OrBlank(Merged(OrBlank(Merged(lines, a, safe)), b, safe))
  }

  /** `a` empties the file and `b` then refills it: the blank line in between stays. */
  predicate BlankLeftBetween(lines: seq<string>, a: seq<CronRequest>, b: seq<CronRequest>, safe: Check) {
    Merged(lines, a, safe) == [] && Printed(b, safe) != []
  }

  lemma BothShape(lines: seq<string>, a: seq<CronRequest>, b: seq<CronRequest>, safe: Check)
    requires AllClean(a, safe) && AllClean(b, safe) && Ids(a) !! Ids(b)
    ensures var all := KeptByBoth(lines, a, b) + Printed(a, safe) + Printed(b, safe);
            Both(lines, a, b, safe) == if BlankLeftBetween(lines, a, b, safe) then [""] + all else OrBlank(all)
  {
    hide Foreign, Printed, Kept;
    MergedTwice(lines, a, b, safe);
    BlankIsForeign(Ids(b));
    var p := Printed(b, safe);
    if Merged(lines, a, safe) == [] {
      KeptTwice(lines, Ids(a), Ids(b));
      KeptNothing(Ids(b));
      assert |StripAll(Kept(lines, Ids(a)))| == |Kept(lines, Ids(a))|;
      assert Kept(lines, Ids(a)) == [] && Printed(a, safe) == [];
      assert StripAll([""]) == [""];
      assert [] + [] + p == p && [""] + [] == [""];
    }
  }

  lemma KeptNothing(owned: set<string>)
    ensures Kept([], owned) == []
  {
  }

  lemma BlankCounts(x: seq<string>, y: seq<string>)
    requires multiset(x) == multiset(y)
    ensures multiset([""] + x) != multiset(OrBlank(y)) || x == []
    ensures multiset(OrBlank(x)) == multiset(OrBlank(y))
  {
    assert |multiset(x)| == |x| && |multiset(y)| == |y|;
    assert |multiset([""] + x)| == |x| + 1;
    assert |multiset(OrBlank(y))| == |OrBlank(y)|;
  }

  /**
    Syncs of payloads with disjoint ids commute, as multisets of the file's lines, exactly when neither
    order passes through an emptied file that the other payload then refills (that order leaves one
    blank line more).
   */
  lemma DisjointSyncsCommute(file: string, a: seq<CronRequest>, b: seq<CronRequest>, safe: Check)
    requires AllClean(a, safe) && AllClean(b, safe) && Ids(a) !! Ids(b)
    ensures multiset(Lines(Sync(Sync(file, a, safe), b, safe))) == multiset(Lines(Sync(Sync(file, b, safe), a, safe)))
            <==> !BlankLeftBetween(Lines(file), a, b, safe) && !BlankLeftBetween(Lines(file), b, a, safe)
  {
    hide Lines, Printed, AllClean, Sync, Ids, KeptByBoth, Kept, StripAll;
    SyncedLines(file, a, safe);
    SyncedLines(Sync(file, a, safe), b, safe);
    SyncedLines(file, b, safe);
    SyncedLines(Sync(file, b, safe), a, safe);
    var lines := Lines(file);
    BothShape(lines, a, b, safe);
    BothShape(lines, b, a, safe);
    KeptTwice(lines, Ids(a), Ids(b));
    var k, p, q := KeptByBoth(lines, a, b), Printed(a, safe), Printed(b, safe);
    assert KeptByBoth(lines, b, a) == k by { SameKept(lines, a, b); }
    Swapped(k, p, q);
    BlankCounts(k + p + q, k + q + p);
    BlankCounts(k + q + p, k + p + q);
  }

  lemma SameKept(lines: seq<string>, a: seq<CronRequest>, b: seq<CronRequest>)
    ensures KeptByBoth(lines, b, a) == KeptByBoth(lines, a, b)
  {
    assert Ids(a) + Ids(b) == Ids(b) + Ids(a);
  }

  lemma Swapped(k: seq<string>, p: seq<string>, q: seq<string>)
    ensures multiset(k + p + q) == multiset(k + q + p) && (k + p + q == [] <==> k + q + p == [])
  {
    assert multiset(k + p + q) == multiset(k) + multiset(p) + multiset(q);
    assert multiset(k + q + p) == multiset(k) + multiset(q) + multiset(p);
  }

  // ------------------------------------------------------------------- removing

  /**
    `remove_cron` drops exactly the lines of that id and keeps the others in order, but for one final carriage
    return.
   */
  lemma RemoveDropsExactly(file: string, id: string)
    ensures Lines(Remove(file, id)) == OrBlank(StripAll(Kept(Lines(file), {id})))
    ensures forall k :: 0 <= k < |Lines(Remove(file, id))| ==> MarkerId(Lines(Remove(file, id))[k]) != Some(id)
    ensures NoCr(Kept(Lines(file), {id})) ==> Lines(Remove(file, id)) == OrBlank(Kept(Lines(file), {id}))
  {
    hide Lines, MarkerId;
    var kept := Kept(Lines(file), {id});
    KeptIsOneLine(Lines(file), {id});
    KeptLines(Lines(file), {id});
    WrittenReadsBack(kept);
    BlankIsForeign({id});
    StrippingShortens(kept);
    forall k | 0 <= k < |kept| ensures MarkerId(StripCr(kept[k])) != Some(id) {
      MarkerIgnoresCr(kept[k]);
      assert Foreign(kept[k], {id});
    }
  }

  // ------------------------------------------------------------------ the readers

  datatype CronListing = CronListing(id: string, entry: string, caption: string)
  datatype CronExport = CronExport(id: string, schedule: string, command: string, caption: Option<string>)

  /** Both readers' view of what follows the marker: the id up to a space, the rest trimmed. */
  function IdAndCaption(after: string): (string, string) {
    match Find(after, " ")
    case Some(p) => (after[..p], Trim(after[p + 1..]))
    case None => (Trim(after), "")
  }

  /** One line of `list_crons`. */
  function Listed(line: string): (r: Option<CronListing>) {
    match Find(line, MARKER)
    case None => None
    case Some(i) =>
      var (id, caption) := IdAndCaption(line[i + |MARKER|..]);
      Some(CronListing(id, Trim(line[..i]), caption))
  }

  /** `splitn(n, ' ')` */
  function SplitN(s: string, n: nat): (r: seq<string>)
    requires n > 0
    ensures 0 < |r| <= n
    decreases n
  {
    if n == 1 then [s]
    else match SplitOnce(s, ' ')
      case None => [s]
      case Some((first, rest)) => [first] + SplitN(rest, n - 1)
  }

  /** One line of `read_crontab_entries`. */
  function Exported(line: string): (r: Option<CronExport>) {
    match Find(line, MARKER)
    case None => None
    case Some(i) =>
      var (id, caption) := IdAndCaption(line[i + |MARKER|..]);
      var parts := SplitN(Trim(line[..i]), 6);
      if |parts| < 6 then None
      else Some(CronExport(id, JoinBy(parts[..5], ' '), parts[5], if caption == [] then None else Some(caption)))
  }

  lemma OneMoreSpace(first: string, rest: string)
    requires ' ' !in first
    ensures Count(first + [' '] + rest, ' ') == Count(rest, ' ') + 1
  {
    CountConcat(first, [], ' ');
    CountConcat(first, [' '], ' ');
    CountConcat(first + [' '], rest, ' ');
    CountOne(' ');
  }

  /** Splitting off `n` space-separated parts gives back, joined, the text before the n-th space. */
  lemma {:induction false} SplitsAtSpace(a: string, b: string, n: nat)
    requires Count(a, ' ') == n
    ensures var parts := SplitN(a + [' '] + b, n + 2);
            |parts| == n + 2 && JoinBy(parts[..n + 1], ' ') == a && parts[n + 1] == b
    decreases n
  {
    hide Find, Count, JoinBy;
    var s := a + [' '] + b;
    if n == 0 {
      JoinOne(a, ' ');
      CountConcat(a, [], ' ');
      FirstOccurrence(a, ' ', b);
      assert SplitN(s, 2) == [a] + SplitN(b, 1);
      assert ([a] + [b])[..1] == [a];
    } else {
      FirstSpace(a);
      var i := Find(a, " ").value;
      var first, rest := a[..i], a[i + 1..];
      assert a == first + [' '] + rest;
      OneMoreSpace(first, rest);
      SplitsAtSpace(rest, b, n - 1);
      assert s == first + [' '] + (rest + [' '] + b);
      FirstOccurrence(first, ' ', rest + [' '] + b);
      var parts := SplitN(rest + [' '] + b, n + 1);
      assert SplitN(s, n + 2) == [first] + parts;
      assert ([first] + parts)[..n + 1] == [first] + parts[..n];
      JoinCons(first, parts[..n], ' ');
    }
  }

  lemma FirstSpace(a: string)
    requires Count(a, ' ') > 0
    ensures Find(a, " ").Some?
    ensures var i := Find(a, " ").value; i < |a| && a[i] == ' ' && ' ' !in a[..i]
  {
    hide Find, Count;
    CountConcat(a, [], ' ');
    var k :| 0 <= k < |a| && a[k] == ' ';
    assert a[k..k + 1] == " ";
    assert HasAt(a, k, " ");
    var i := Find(a, " ").value;
    assert a[i..i + 1][0] == ' ';
    forall j | 0 <= j < i ensures a[j] != ' ' {
      assert !HasAt(a, j, " ");
      assert a[j..j + 1] == [a[j]];
    }
  }

  /** What both readers make of the text behind a marker, with a space in it and without. */
  lemma ReadsIdAndCaption(id: string, caption: string)
    requires ' ' !in id
    ensures IdAndCaption(id + " " + caption) == (id, Trim(caption))
    ensures IdAndCaption(id) == (Trim(id), "")
  {
    LacksElement(id, " ", ' ');
    FirstOccurrence(id, ' ', caption);
    assert id + " " + caption == id + [' '] + caption;
  }

  /** What stands before the marker of a printed line, trimmed. */
  lemma BeforeMarker(schedule: string, command: string)
    requires schedule != [] && !IsWs(schedule[0]) && !Blank(command)
    ensures Trim(schedule + " " + command + " ") == schedule + " " + TrimEnd(command)
  {
    hide TrimEnd, Trim;
    var w := TrimEndShape(command);
    var core := schedule + " " + TrimEnd(command);
    assert TrimEnd(command) == [] ==> command == w;
    assert core[0] == schedule[0] && core[|core| - 1] == TrimEnd(command)[|TrimEnd(command)| - 1];
    TrimCore([], core, w + " ");
    assert [] + core + (w + " ") == schedule + " " + command + " ";
  }

  lemma PrintedParts(c: CronRequest)
    requires IsValidSchedule(c.schedule) && Clean(c)
    ensures var at := |c.schedule| + |c.command| + 2;
            && Find(Print(c), MARKER) == Some(at) && at + |MARKER| <= |Print(c)|
            && Print(c)[..at] == c.schedule + " " + c.command + " "
            && IdAndCaption(Print(c)[at + |MARKER|..]) == (c.id, Trim(Caption(c)))
  {
    hide IsValidSchedule, Find, Trim;
    var after := c.id + " " + Caption(c);
    ScheduleHasNoHash(c.schedule);
    MarkerPlace(c.schedule, c.command, after);
    assert Print(c) == c.schedule + " " + c.command + " " + MARKER + after;
    assert ' ' !in c.id by { assert IsWs(' '); }
    ReadsIdAndCaption(c.id, Caption(c));
  }

  /**
    The listing recovers the id, and the schedule with the command, and the caption, each trimmed: exactly as they
    were when they are trimmed already.
   */
  lemma ListRoundTrip(c: CronRequest)
    requires IsValidSchedule(c.schedule) && Clean(c)
    ensures Listed(Print(c)) == Some(CronListing(c.id, Trim(c.schedule + " " + c.command), Trim(Caption(c))))
    ensures Listed(Print(c)) == Some(CronListing(c.id, c.schedule + " " + c.command, Caption(c))) <==>
            Trimmed(c.schedule + " " + c.command) && Trimmed(Caption(c))
  {
    hide IsValidSchedule, Print, IdAndCaption, Trim, Find, Clean;
    PrintedParts(c);
    TrimDropsBlank(c.schedule + " " + c.command, " ");
    TrimsToItselfIff(c.schedule + " " + c.command);
    TrimsToItselfIff(Caption(c));
  }

  /** A schedule of five fields separated by single spaces: what the panel's own form produces. */
  predicate SingleSpaced(schedule: string) {
    schedule != [] && !IsWs(schedule[0]) && Count(schedule, ' ') == 4
  }

  /**
    The export recovers the id, a single-spaced schedule, the command without what trails it, and the trimmed
    caption.
   */
  lemma ExportRoundTrip(c: CronRequest)
    requires IsValidSchedule(c.schedule) && Clean(c) && SingleSpaced(c.schedule) && !Blank(c.command)
    ensures var caption := Trim(Caption(c));
            Exported(Print(c)) ==
            Some(CronExport(c.id, c.schedule, TrimEnd(c.command), if caption == [] then None else Some(caption)))
  {
    hide IsValidSchedule, Print, IdAndCaption, SplitN, JoinBy, Trim, TrimEnd, Count, Find, Clean;
    PrintedParts(c);
    BeforeMarker(c.schedule, c.command);
    SplitsAtSpace(c.schedule, TrimEnd(c.command), 4);
    assert c.schedule + [' '] + TrimEnd(c.command) == c.schedule + " " + TrimEnd(c.command);
  }

  /** A full split, joined again except for its last part, is the text up to its n-th space. */
  lemma {:induction false} SplitNShape(s: string, n: nat)
    requires |SplitN(s, n + 2)| == n + 2
    ensures var parts := SplitN(s, n + 2);
            Count(JoinBy(parts[..n + 1], ' '), ' ') == n && JoinBy(parts[..n + 1], ' ') + [' '] + parts[n + 1] == s
    decreases n
  {
    hide Count, Find, JoinBy;
    var parts := SplitN(s, n + 2);
    var (first, rest) := SplitOnce(s, ' ').value;
    SplitOnceShape(s, ' ');
    CountConcat(first, [], ' ');
    if n == 0 {
      assert SplitN(rest, 1) == [rest];
      assert parts[..1] == [first];
      JoinOne(first, ' ');
    } else {
      var more := SplitN(rest, n + 1);
      assert parts == [first] + more;
      SplitNShape(rest, n - 1);
      assert parts[..n + 1] == [first] + more[..n];
      JoinCons(first, more[..n], ' ');
      var tail := JoinBy(more[..n], ' ');
      OneMoreSpace(first, tail);
      assert first + [' '] + tail + [' '] + more[n] == first + [' '] + (tail + [' '] + more[n]);
    }
  }

  lemma JoinOne(s: string, c: char)
    ensures JoinBy([s], c) == s
  {
  }

  /** Only white space after `s`: what is left after trimming is no longer than `s`. */
  lemma BlankTailIsTrimmed(s: string, w: string)
    requires Blank(w)
    ensures |Trim(s + w)| <= |s|
  {
    hide Trim;
    TrimDropsBlank(s, w);
    var _, _ := TrimShape(s);
  }

  /**
    The export recovers a printed schedule exactly when its fields are separated by single spaces, nothing precedes
    them, and the command is more than white space.
   */
  lemma ExportsScheduleIffSingleSpaced(c: CronRequest)
    requires IsValidSchedule(c.schedule) && Clean(c)
    ensures Exported(Print(c)).Some? && Exported(Print(c)).value.schedule == c.schedule <==>
            SingleSpaced(c.schedule) && !Blank(c.command)
  {
    hide IsValidSchedule, Print, IdAndCaption, SplitN, JoinBy, Trim, TrimEnd, Count, Find, Clean;
    if SingleSpaced(c.schedule) && !Blank(c.command) {
      ExportRoundTrip(c);
    }
    ScheduleHasNoHash(c.schedule);
    PrintedParts(c);
    var text := c.schedule + " " + c.command + " ";
    var core := Trim(text);
    if |SplitN(core, 6)| == 6 {
      SplitNShape(core, 4);
      var _, _ := TrimShape(text);
      var head := JoinBy(SplitN(core, 6)[..5], ' ');
      assert head != [] ==> core[0] == head[0];
      if Blank(c.command) {
        BlankTailIsTrimmed(c.schedule, " " + c.command + " ");
        assert text == c.schedule + (" " + c.command + " ");
      }
    }
  }

  // ----------------------------------------------------- inputs that show the exceptions

  /** Five stars, with one space or two behind the first. */
  lemma StarsAreValid(gap: string)
    requires gap == " " || gap == "  "
    ensures IsValidSchedule("*" + gap + "* * * *")
  {
    hide SplitWhitespace;
    OneStar();
    StarThen(" ", "*");
    StarThen(" ", "* *");
    StarThen(" ", "* * *");
    StarThen(gap, "* * * *");
    assert "*" + " " + "*" == "* *" && "*" + " " + "* *" == "* * *" && "*" + " " + "* * *" == "* * * *";
    assert SplitWhitespace("*" + gap + "* * * *") == ["*", "*", "*", "*", "*"];
  }

  lemma OneStar()
    ensures SplitWhitespace("*") == ["*"]
  {
    assert "*"[1..] == "" && Word("*") == "*";
  }

  lemma SkipsSpace(s: string)
    ensures SplitWhitespace(" " + s) == SplitWhitespace(s)
  {
    assert (" " + s)[1..] == s;
  }

  lemma StarThen(gap: string, s: string)
    requires gap == " " || gap == "  "
    ensures SplitWhitespace("*" + gap + s) == ["*"] + SplitWhitespace(s)
  {
    var rest := gap + s;
    assert "*" + gap + s == "*" + rest && ("*" + rest)[1..] == rest;
    WordOf("*", rest);
    SkipsSpace(s);
    SkipsSpace(" " + s);
    assert gap == "  " ==> rest == " " + (" " + s);
  }

  /** A job the exceptions can be shown on. */
  function Job(gap: string): CronRequest {
    CronRequest("b", "true", "*" + gap + "* * * *", None, true)
  }

  lemma JobIsClean(gap: string)
    requires gap == " " || gap == "  "
    ensures Clean(Job(gap)) && IsValidSchedule(Job(gap).schedule)
  {
    hide Contains;
    StarsAreValid(gap);
    LacksElement("true", MARKER, '#');
    LacksElement("b" + " " + "", MARKER, '#');
  }

  /** A valid schedule with two spaces between its first fields is not exported as it was. */
  lemma TwoSpacesAreNotExported()
    ensures var c := Job("  "); IsValidSchedule(c.schedule) && Clean(c)
    ensures !(Exported(Print(Job("  "))).Some? && Exported(Print(Job("  "))).value.schedule == Job("  ").schedule)
  {
    var c := Job("  ");
    JobIsClean("  ");
    JobSpaces();
    hide Exported, Print, IsValidSchedule, Clean, Count;
    ExportsScheduleIffSingleSpaced(c);
  }

  lemma JobSpaces()
    ensures Count(Job("  ").schedule, ' ') == 5
  {
    hide Count;
    CountConcat("*", "  ", ' ');
    CountConcat("*" + "  ", "* * * *", ' ');
    CountOne('*');
    CountStep('*', "");
    CountStep(' ', " ");
    CountStep(' ', "");
    CountConcat("", "", ' ');
    assert [' '] + " " == "  " && [' '] + "" == " " && ['*'] + "" == "*";
    StarSpaces();
  }

  lemma StarSpaces()
    ensures Count("* * * *", ' ') == 3
  {
    hide Count;
    CountConcat("* ", "* * *", ' ');
    CountConcat("* ", "* *", ' ');
    CountConcat("* ", "*", ' ');
    CountConcat("*", "", ' ');
    CountStep('*', " ");
    CountStep(' ', "");
    CountConcat("", "", ' ');
    assert "* " + "* * *" == "* * * *" && "* " + "* *" == "* * *" && "* " + "*" == "* *";
    assert ['*'] + " " == "* " && [' '] + "" == " ";
  }

  lemma CountStep(c: char, s: string)
    ensures Count([c] + s, ' ') == (if c == ' ' then 1 else 0) + Count(s, ' ')
  {
    assert ([c] + s)[1..] == s;
  }

  /** An empty crontab, an empty payload and a job: the order of the two syncs shows in the file. */
  lemma EmptyPayloadFirstDiffers(safe: Check)
    requires safe("true")
    ensures AllClean([Job(" ")], safe)
    ensures multiset(Lines(Sync(Sync("", [], safe), [Job(" ")], safe)))
            != multiset(Lines(Sync(Sync("", [Job(" ")], safe), [], safe)))
  {
    hide Lines, Sync, Clean, IsValidSchedule, Print;
    JobIsClean(" ");
    var jobs := [Job(" ")];
    LinesSingle("");
    assert FateOf(jobs[0], safe).Scheduled?;
    assert Printed(jobs, safe) != [];
    DisjointSyncsCommute("", [], jobs, safe);
  }
}
