/**
  Sequence and string operations of the Rust standard library that the modelled
  code leans on: substring search, `str::lines`, `join`, `trim`, `split`.
 */
module Text {

  datatype Option<+T> = None | Some(value: T)

  // ---------------------------------------------------------------- searching

  ghost predicate HasAt<T>(s: seq<T>, i: int, p: seq<T>) {
    0 <= i && i + |p| <= |s| && s[i..i + |p|] == p
  }

  /** The first position of `p` in `s`, as `str::find` and `windows(n).position` give it. */
  function Find<T(==)>(s: seq<T>, p: seq<T>): (r: Option<nat>)
    ensures r.Some? ==> HasAt(s, r.value, p) && forall j :: 0 <= j < r.value ==> !HasAt(s, j, p)
    ensures r.None? ==> forall j :: !HasAt(s, j, p)
  {
    FindFrom(s, p, 0)
  }

  function FindFrom<T(==)>(s: seq<T>, p: seq<T>, i: nat): (r: Option<nat>)
    ensures r.Some? ==> i <= r.value && HasAt(s, r.value, p) && forall j :: i <= j < r.value ==> !HasAt(s, j, p)
    ensures r.None? ==> forall j :: i <= j ==> !HasAt(s, j, p)
    decreases |s| - i
  {
    if i + |p| > |s| then None
    else if s[i..i + |p|] == p then Some(i)
    else FindFrom(s, p, i + 1)
  }

  predicate Contains<T(==)>(s: seq<T>, p: seq<T>) {
    Find(s, p).Some?
  }

  predicate StartsWith<T(==)>(s: seq<T>, p: seq<T>) {
    |p| <= |s| && s[..|p|] == p
  }

  /** Where a pattern can sit in a concatenation. */
  lemma HasAtConcat<T>(a: seq<T>, b: seq<T>, p: seq<T>, i: int)
    ensures 0 <= i && i + |p| <= |a| ==> (HasAt(a + b, i, p) <==> HasAt(a, i, p))
    ensures |a| <= i ==> (HasAt(a + b, i, p) <==> HasAt(b, i - |a|, p))
  {
    if 0 <= i && i + |p| <= |a| {
      assert (a + b)[i..i + |p|] == a[i..i + |p|];
    }
    if |a| <= i && i + |p| <= |a + b| {
      assert (a + b)[i..i + |p|] == b[i - |a|..i - |a| + |p|];
    }
  }

  lemma NoStraddle<T>(a: seq<T>, b: seq<T>, p: seq<T>, i: nat)
    requires b != [] && b[0] !in p && i < |a| < i + |p|
    ensures !HasAt(a + b, i, p)
  {
    if i + |p| <= |a + b| {
      assert (a + b)[i..i + |p|][|a| - i] == b[0];
    }
  }

  /** If the right part starts with an element foreign to the pattern, no occurrence straddles the seam. */
  lemma ContainsAcross<T>(a: seq<T>, b: seq<T>, p: seq<T>)
    requires p != [] && b != [] && b[0] !in p
    ensures Contains(a + b, p) <==> Contains(a, p) || Contains(b, p)
  {
    if Contains(a + b, p) {
      var i := Find(a + b, p).value;
      HasAtConcat(a, b, p, i);
      if i < |a| < i + |p| {
        NoStraddle(a, b, p, i);
      }
      assert HasAt(a, i, p) || HasAt(b, i - |a|, p);
    }
    if Contains(a, p) {
      var i := Find(a, p).value;
      HasAtConcat(a, b, p, i);
      assert HasAt(a + b, i, p);
    }
    if Contains(b, p) {
      var i := Find(b, p).value;
      HasAtConcat(a, b, p, i + |a|);
      assert HasAt(a + b, i + |a|, p);
    }
  }

  /** Growing a text never loses an occurrence. */
  lemma ContainsGrows<T>(a: seq<T>, b: seq<T>, c: seq<T>, p: seq<T>)
    requires Contains(b, p)
    ensures Contains(a + b + c, p)
  {
    var i := Find(b, p).value;
    HasAtConcat(a, b, p, i + |a|);
    HasAtConcat(a + b, c, p, i + |a|);
  }

  /** A pattern cannot occur in a text that lacks one of its elements. */
  lemma LacksElement<T>(s: seq<T>, p: seq<T>, x: T)
    requires x in p && x !in s
    ensures !Contains(s, p)
  {
    var k :| 0 <= k < |p| && p[k] == x;
    forall i ensures !HasAt(s, i, p) {
      if 0 <= i && i + |p| <= |s| {
        assert s[i..i + |p|][k] == s[i + k];
      }
    }
  }

  // -------------------------------------------------------------------- lines

  predicate OneLine(s: string) {
    '\n' !in s
  }

  predicate AllOneLine(ls: seq<string>) {
    forall k :: 0 <= k < |ls| ==> OneLine(ls[k])
  }

  predicate EndsWithCr(s: string) {
    s != [] && s[|s| - 1] == '\r'
  }

  function StripCr(s: string): (r: string) {
    if EndsWithCr(s) then s[..|s| - 1] else s
  }

  /** `str::lines`: cut at every LF, drop it and one CR before it; a final LF opens no line. */
  function Lines(s: string): (r: seq<string>)
    ensures AllOneLine(r)
    decreases |s|
  {
    if s == [] then []
    else
      match Find(s, ['\n'])
      case None => NoNewline(s); [s]
      case Some(i) => NoNewlineBefore(s, i); [StripCr(s[..i])] + Lines(s[i + 1..])
  }

  lemma NoNewline(s: string)
    requires Find(s, ['\n']).None?
    ensures OneLine(s)
  {
    if '\n' in s {
      var k :| 0 <= k < |s| && s[k] == '\n';
      assert HasAt(s, k, ['\n']);
    }
  }

  lemma NoNewlineBefore(s: string, i: nat)
    requires Find(s, ['\n']) == Some(i)
    ensures i < |s| && s[i] == '\n' && OneLine(s[..i])
  {
    assert s[i..i + 1][0] == '\n';
    forall k | 0 <= k < i ensures s[k] != '\n' {
      assert !HasAt(s, k, ['\n']);
      assert s[k..k + 1] == [s[k]];
    }
  }

  /** The first LF of a text that begins with an LF-terminated line. */
  lemma FirstNewline(l: string, rest: string)
    requires OneLine(l)
    ensures Find(l + ['\n'] + rest, ['\n']) == Some(|l|)
  {
    var s := l + ['\n'] + rest;
    assert HasAt(s, |l|, ['\n']);
    forall j | 0 <= j < |l| ensures !HasAt(s, j, ['\n']) {
      assert s[j..j + 1] == [l[j]];
    }
  }

  lemma LinesCons(l: string, rest: string)
    requires OneLine(l)
    ensures Lines(l + ['\n'] + rest) == [StripCr(l)] + Lines(rest)
  {
    var s := l + ['\n'] + rest;
    FirstNewline(l, rest);
    assert s[..|l|] == l && s[|l| + 1..] == rest;
  }

  /** A line may end in LF or in CR LF; only that one CR goes. */
  lemma LineEnds(l: string, rest: string)
    requires OneLine(l)
    ensures Lines(l + "\r\n" + rest) == [l] + Lines(rest)
    ensures (l != "" ==> l[|l| - 1] != '\r') ==> Lines(l + "\n" + rest) == [l] + Lines(rest)
  {
    hide Lines;
    LinesCons(l + ['\r'], rest);
    LinesCons(l, rest);
    assert l + "\r\n" + rest == (l + ['\r']) + ['\n'] + rest;
    assert StripCr(l + ['\r']) == l;
  }

  lemma LinesSingle(l: string)
    requires OneLine(l)
    ensures Lines(l) == if l == [] then [] else [l]
  {
    if Contains(l, ['\n']) {
      NoNewlineBefore(l, Find(l, ['\n']).value);
      assert false;
    }
  }

  /** The parts with `c` between them: `join`. */
  function JoinBy(parts: seq<string>, c: char): (r: string) {
    if parts == [] then []
    else if |parts| == 1 then parts[0]
    else parts[0] + [c] + JoinBy(parts[1..], c)
  }

  lemma JoinCons(first: string, rest: seq<string>, c: char)
    requires rest != []
    ensures JoinBy([first] + rest, c) == first + [c] + JoinBy(rest, c)
  {
    assert ([first] + rest)[1..] == rest;
  }

  /** `join("\n")` */
  function Join(ls: seq<string>): string {
    JoinBy(ls, '\n')
  }

  /** Every line followed by its LF. */
  function Terminated(ls: seq<string>): (r: string) {
    if ls == [] then [] else ls[0] + ['\n'] + Terminated(ls[1..])
  }

  lemma {:induction false} TerminatedIsJoin(ls: seq<string>)
    requires ls != []
    ensures Terminated(ls) == Join(ls) + ['\n']
  {
    if |ls| == 1 {
      assert Terminated(ls[1..]) == [];
    } else {
      TerminatedIsJoin(ls[1..]);
    }
  }

  predicate NoCr(ls: seq<string>) {
    forall k :: 0 <= k < |ls| ==> !EndsWithCr(ls[k])
  }

  /** Reading back LF-terminated lines gives them unchanged, whatever text follows. */
  lemma LinesOfTerminated(ls: seq<string>, rest: string)
    requires AllOneLine(ls) && NoCr(ls)
    ensures Lines(Terminated(ls) + rest) == ls + Lines(rest)
  {
    hide Lines, Terminated;
    LinesOfAnyTerminated(ls, rest);
    StrippingShortens(ls);
  }

  /**
    A text rewritten as `lines.join("\n")` loses exactly a blank last line when it is read again.
   */
  lemma {:induction false} LinesOfJoin(ls: seq<string>)
    requires AllOneLine(ls) && NoCr(ls)
    ensures Lines(Join(ls)) == if ls != [] && ls[|ls| - 1] == [] then ls[..|ls| - 1] else ls
  {
    hide Lines;
    if ls == [] {
      LinesSingle([]);
    } else if |ls| == 1 {
      assert OneLine(ls[0]);
      LinesSingle(ls[0]);
      assert ls == [ls[0]];
    } else {
      assert OneLine(ls[0]) && !EndsWithCr(ls[0]);
      LinesCons(ls[0], Join(ls[1..]));
      LinesOfJoin(ls[1..]);
      assert ls == [ls[0]] + ls[1..];
      if ls[|ls| - 1] == [] {
        assert ls[..|ls| - 1] == [ls[0]] + ls[1..][..|ls| - 2];
      }
    }
  }

  /** The lines that a file written as `lines.join("\n")` and a line feed has: an empty one has a blank line. */
  function OrBlank(lines: seq<string>): seq<string> {
    if lines == [] then [[]] else lines
  }

  lemma LinesOfJoinedThen(lines: seq<string>, rest: string)
    requires AllOneLine(lines) && NoCr(lines)
    ensures Lines(Join(lines) + ['\n'] + rest) == OrBlank(lines) + Lines(rest)
  {
    hide Lines;
    if lines == [] {
      LinesCons([], rest);
    } else {
      TerminatedIsJoin(lines);
      LinesOfTerminated(lines, rest);
    }
  }

  /** What `lines` makes of lines written with an LF each: one CR at an end goes. */
  function StripAll(lines: seq<string>): (r: seq<string>)
    ensures |r| == |lines| && forall k :: 0 <= k < |r| ==> r[k] == StripCr(lines[k])
  {
    if lines == [] then [] else [StripCr(lines[0])] + StripAll(lines[1..])
  }

  lemma {:induction false} LinesOfAnyTerminated(lines: seq<string>, rest: string)
    requires AllOneLine(lines)
    ensures Lines(Terminated(lines) + rest) == StripAll(lines) + Lines(rest)
  {
    hide Lines;
    if lines == [] {
      assert Terminated(lines) + rest == rest;
    } else {
      var more := Terminated(lines[1..]) + rest;
      assert Terminated(lines) + rest == lines[0] + ['\n'] + more;
      assert OneLine(lines[0]);
      LinesCons(lines[0], more);
      LinesOfAnyTerminated(lines[1..], rest);
    }
  }

  lemma {:induction false} StrippingShortens(lines: seq<string>)
    ensures |Terminated(StripAll(lines))| <= |Terminated(lines)|
    ensures |Terminated(StripAll(lines))| == |Terminated(lines)| ==> NoCr(lines)
    ensures NoCr(lines) ==> StripAll(lines) == lines
  {
    if lines != [] {
      StrippingShortens(lines[1..]);
      assert lines == [lines[0]] + lines[1..];
      assert StripAll(lines)[1..] == StripAll(lines[1..]);
      if |Terminated(StripAll(lines))| == |Terminated(lines)| {
        assert NoCr(lines[1..]) && !EndsWithCr(lines[0]);
      }
      if NoCr(lines) {
        assert !EndsWithCr(lines[0]);
        assert forall k :: 0 <= k < |lines[1..]| ==> lines[1..][k] == lines[k + 1];
      }
    }
  }

  lemma {:induction false} StripAllConcat(a: seq<string>, b: seq<string>)
    ensures StripAll(a + b) == StripAll(a) + StripAll(b)
  {
    if a == [] {
      assert a + b == b;
    } else {
      assert (a + b)[1..] == a[1..] + b;
      StripAllConcat(a[1..], b);
    }
  }

  /** Any lines, joined and ended with a line feed, read back. */
  lemma LinesOfAnyJoined(lines: seq<string>)
    requires AllOneLine(lines)
    ensures Lines(Join(lines) + ['\n']) == OrBlank(StripAll(lines))
  {
    hide Lines;
    LinesSingle([]);
    if lines == [] {
      LinesCons([], []);
      assert Join(lines) + ['\n'] == [] + ['\n'] + [];
      assert [StripCr([])] + Lines([]) == [[]];
    } else {
      TerminatedIsJoin(lines);
      LinesOfAnyTerminated(lines, []);
      assert Terminated(lines) + [] == Terminated(lines);
      assert StripAll(lines) + [] == StripAll(lines);
    }
  }

  /** The first occurrence is where `Find` says. */
  lemma FirstIsFound<T>(s: seq<T>, p: seq<T>, i: nat)
    requires HasAt(s, i, p) && forall j :: 0 <= j < i ==> !HasAt(s, j, p)
    ensures Find(s, p) == Some(i)
  {
    hide Find, HasAt;
  }

  lemma OccursInFront<T>(s: seq<T>, p: seq<T>, x: T, i: int)
    requires p != [] && x !in p
    ensures HasAt(s + [x], i, p) <==> HasAt(s, i, p)
  {
    HasAtConcat(s, [x], p, i);
    if 0 <= i && i + |p| == |s| + 1 {
      assert (s + [x])[i..i + |p|][|p| - 1] == x;
    }
  }

  /** An element foreign to the pattern, put at the end, does not move its first occurrence. */
  lemma FindIgnoresEnd<T>(s: seq<T>, p: seq<T>, x: T)
    requires p != [] && x !in p
    ensures Find(s + [x], p) == Find(s, p)
  {
    hide Find, HasAt;
    forall i ensures HasAt(s + [x], i, p) <==> HasAt(s, i, p) {
      OccursInFront(s, p, x, i);
    }
    if Find(s, p).Some? {
      FirstIsFound(s + [x], p, Find(s, p).value);
    }
  }

  // ----------------------------------------------------------------- trimming

  /** `char::is_whitespace` (Unicode `White_Space`). */
  predicate IsWs(c: char) {
    || '\t' <= c <= '\r' || c == ' ' || c == '\U{85}' || c == '\U{A0}' || c == '\U{1680}'
    || '\U{2000}' <= c <= '\U{200A}' || c == '\U{2028}' || c == '\U{2029}' || c == '\U{202F}'
    || c == '\U{205F}' || c == '\U{3000}'
  }

  /** The twenty-five white-space characters, by their code points. */
  lemma WhiteSpaceIff(c: char)
    ensures IsWs(c) <==> c as int in [9, 10, 11, 12, 13, 32, 133, 160, 5760,
                                      8192, 8193, 8194, 8195, 8196, 8197, 8198, 8199, 8200, 8201, 8202,
                                      8232, 8233, 8239, 8287, 12288]
  {
  }

  function TrimStart(s: string): (r: string) {
    if s != [] && IsWs(s[0]) then TrimStart(s[1..]) else s
  }

  function TrimEnd(s: string): (r: string) {
    if s != [] && IsWs(s[|s| - 1]) then TrimEnd(s[..|s| - 1]) else s
  }

  /** `str::trim` */
  function Trim(s: string): (r: string) {
    TrimEnd(TrimStart(s))
  }

  predicate Blank(s: string) {
    forall k :: 0 <= k < |s| ==> IsWs(s[k])
  }

  predicate Trimmed(s: string) {
    s != [] ==> !IsWs(s[0]) && !IsWs(s[|s| - 1])
  }

  /** Trimming removes white space around a core and nothing else. */
  lemma {:induction false} TrimStartCore(w: string, s: string)
    requires Blank(w) && (s != [] ==> !IsWs(s[0]))
    ensures TrimStart(w + s) == s
  {
    if w == [] {
      assert w + s == s;
    } else {
      assert IsWs(w[0]);
      assert (w + s)[1..] == w[1..] + s;
      TrimStartCore(w[1..], s);
    }
  }

  lemma {:induction false} TrimEndCore(s: string, w: string)
    requires Blank(w) && (s != [] ==> !IsWs(s[|s| - 1]))
    ensures TrimEnd(s + w) == s
  {
    if w == [] {
      assert s + w == s;
    } else {
      assert IsWs(w[|w| - 1]);
      assert (s + w)[..|s + w| - 1] == s + w[..|w| - 1];
      TrimEndCore(s, w[..|w| - 1]);
    }
  }

  lemma TrimCore(w: string, s: string, v: string)
    requires Blank(w) && Blank(v) && Trimmed(s)
    ensures Trim(w + s + v) == s
  {
    if s == [] {
      assert w + s + v == (w + v) + [];
      TrimStartCore(w + v, []);
    } else {
      assert w + s + v == w + (s + v);
      TrimStartCore(w, s + v);
      TrimEndCore(s, v);
    }
  }

  lemma {:induction false} TrimStartShape(s: string) returns (w: string)
    ensures Blank(w) && s == w + TrimStart(s)
    ensures TrimStart(s) != [] ==> !IsWs(TrimStart(s)[0])
    decreases |s|
  {
    if s != [] && IsWs(s[0]) {
      var v := TrimStartShape(s[1..]);
      w := [s[0]] + v;
      assert s == [s[0]] + s[1..];
    } else {
      w := [];
    }
  }

  lemma {:induction false} TrimEndShape(s: string) returns (w: string)
    ensures Blank(w) && s == TrimEnd(s) + w
    ensures TrimEnd(s) != [] ==> !IsWs(TrimEnd(s)[|TrimEnd(s)| - 1])
    decreases |s|
  {
    if s != [] && IsWs(s[|s| - 1]) {
      var v := TrimEndShape(s[..|s| - 1]);
      w := v + [s[|s| - 1]];
      assert s == s[..|s| - 1] + [s[|s| - 1]];
    } else {
      w := [];
    }
  }

  /** Every text is blank + its trimmed core + blank. */
  lemma TrimShape(s: string) returns (w: string, v: string)
    ensures Blank(w) && Blank(v) && s == w + Trim(s) + v && Trimmed(Trim(s))
  {
    w := TrimStartShape(s);
    v := TrimEndShape(TrimStart(s));
    if Trim(s) != [] {
      assert TrimStart(s)[0] == Trim(s)[0];
    }
  }

  lemma TrimDropsBlank(s: string, w: string)
    requires Blank(w)
    ensures Trim(s + w) == Trim(s)
  {
    hide Trim;
    var a, b := TrimShape(s);
    TrimCore(a, Trim(s), b + w);
    assert s + w == a + Trim(s) + (b + w);
  }

  lemma TrimsToItselfIff(s: string)
    ensures Trim(s) == s <==> Trimmed(s)
  {
    hide Trim;
    var a, b := TrimShape(s);
    if Trimmed(s) {
      TrimCore([], s, []);
      assert [] + s + [] == s;
    }
  }

  lemma TrimKeepsOut(s: string, c: char)
    requires c !in s
    ensures c !in TrimStart(s) && c !in Trim(s)
  {
    hide TrimStart, TrimEnd;
    var w := TrimStartShape(s);
    var v := TrimEndShape(TrimStart(s));
    assert forall k :: 0 <= k < |TrimStart(s)| ==> TrimStart(s)[k] == s[|w| + k];
    assert forall k :: 0 <= k < |Trim(s)| ==> Trim(s)[k] == TrimStart(s)[k];
  }

  // ---------------------------------------------------------------- splitting

  /** `split(c).nth(1)`: what lies between the first and the second `c`. */
  function SecondField(s: string, c: char): (r: Option<string>) {
    match Find(s, [c])
    case None => None
    case Some(i) => Some(UpTo(s[i + 1..], c))
  }

  /** The part of `s` before its first `c`, all of it when there is none. */
  function UpTo(s: string, c: char): (r: string) {
    if s == [] || s[0] == c then [] else [s[0]] + UpTo(s[1..], c)
  }

  lemma {:induction false} UpToAll(s: string, c: char)
    ensures |UpTo(s, c)| <= |s| && UpTo(s, c) == s[..|UpTo(s, c)|]
    ensures UpTo(s, c) == s <==> c !in s
  {
    if s != [] && s[0] != c {
      UpToAll(s[1..], c);
      assert s == [s[0]] + s[1..];
    }
  }

  lemma FirstOccurrence(a: string, c: char, b: string)
    requires c !in a
    ensures Find(a + [c] + b, [c]) == Some(|a|)
    ensures (a + [c] + b)[|a| + 1..] == b && (a + [c] + b)[..|a|] == a
  {
    var s := a + [c] + b;
    assert HasAt(s, |a|, [c]);
    forall j | 0 <= j < |a| ensures !HasAt(s, j, [c]) {
      assert s[j..j + 1] == [a[j]];
    }
  }

  /** `split_once(c)` */
  function SplitOnce(s: string, c: char): (r: Option<(string, string)>) {
    match Find(s, [c])
    case None => None
    case Some(i) => Some((s[..i], s[i + 1..]))
  }

  lemma SplitOnceShape(s: string, c: char)
    ensures SplitOnce(s, c).None? ==> c !in s
    ensures SplitOnce(s, c).Some? ==> var (first, rest) := SplitOnce(s, c).value; c !in first && s == first + [c] + rest
  {
    hide Find;
    var n := match Find(s, [c]) case Some(i) => i case None => |s|;
    if n < |s| {
      assert s[n..n + 1][0] == c;
    }
    forall j | 0 <= j < n ensures s[j] != c {
      assert !HasAt(s, j, [c]);
      assert s[j..j + 1] == [s[j]];
    }
  }

  /** `split(',')` */
  function SplitCommas(s: string): (r: seq<string>)
    decreases |s|
  {
    match SplitOnce(s, ',')
    case None => [s]
    case Some((first, rest)) => if |rest| < |s| then [first] + SplitCommas(rest) else [s]
  }

  lemma SplitCommasCons(first: string, rest: string)
    requires ',' !in first
    ensures SplitCommas(first + [','] + rest) == [first] + SplitCommas(rest)
  {
    hide Find;
    FirstOccurrence(first, ',', rest);
  }

  lemma SplitCommasOne(s: string)
    requires ',' !in s
    ensures SplitCommas(s) == [s]
  {
    hide FindFrom;
    LacksElement(s, [','], ',');
  }

  lemma {:induction false} SplitsJoined(parts: seq<string>)
    requires parts != [] && forall k :: 0 <= k < |parts| ==> ',' !in parts[k]
    ensures SplitCommas(JoinBy(parts, ',')) == parts
  {
    hide SplitCommas;
    assert ',' !in parts[0];
    if |parts| == 1 {
      SplitCommasOne(parts[0]);
    } else {
      SplitCommasCons(parts[0], JoinBy(parts[1..], ','));
      forall k | 0 <= k < |parts[1..]| ensures ',' !in parts[1..][k] {
        assert parts[1..][k] == parts[k + 1];
      }
      SplitsJoined(parts[1..]);
      assert parts == [parts[0]] + parts[1..];
    }
  }

  function Count(s: string, c: char): nat {
    if s == [] then 0 else (if s[0] == c then 1 else 0) + Count(s[1..], c)
  }

  lemma CountOne(c: char)
    ensures Count([c], c) == 1
  {
    assert [c][1..] == [];
  }

  lemma {:induction false} CountConcat(a: string, b: string, c: char)
    ensures Count(a + b, c) == Count(a, c) + Count(b, c)
    ensures c !in a <==> Count(a, c) == 0
  {
    if a == [] {
      assert a + b == b;
    } else {
      assert (a + b)[1..] == a[1..] + b;
      CountConcat(a[1..], b, c);
      assert a == [a[0]] + a[1..];
    }
  }

  // -------------------------------------------------------- cutting a stream

  /** The parts of a text that a separator ends, the separator included, and what follows the last one. */
  datatype Pieces<T> = Pieces(parts: seq<seq<T>>, rest: seq<T>)

  function CutBehind<T(==)>(s: seq<T>, sep: seq<T>): (r: Pieces<T>)
    requires sep != []
    decreases |s|
  {
    match Find(s, sep)
    case None => Pieces([], s)
    case Some(i) =>
      var more := CutBehind(s[i + |sep|..], sep);
      Pieces([s[..i + |sep|]] + more.parts, more.rest)
  }

  function Flat<T>(parts: seq<seq<T>>): (r: seq<T>) {
    if parts == [] then [] else parts[0] + Flat(parts[1..])
  }

  lemma CutStep<T>(s: seq<T>, sep: seq<T>, i: nat)
    requires sep != [] && Find(s, sep) == Some(i)
    ensures i + |sep| <= |s|
    ensures var more := CutBehind(s[i + |sep|..], sep);
            CutBehind(s, sep) == Pieces([s[..i + |sep|]] + more.parts, more.rest)
  {
    hide Find;
  }

  lemma CutEnd<T>(s: seq<T>, sep: seq<T>)
    requires sep != [] && Find(s, sep).None?
    ensures CutBehind(s, sep) == Pieces([], s)
  {
  }

  /** The first separator stays where it is when the text grows, or is cut behind it. */
  lemma FindStays<T>(a: seq<T>, b: seq<T>, sep: seq<T>, i: nat)
    requires Find(a, sep) == Some(i)
    ensures Find(a + b, sep) == Some(i) && i + |sep| <= |a| && Find(a[..i + |sep|], sep) == Some(i)
  {
    var head, tail := a[..i + |sep|], a[i + |sep|..];
    assert a == head + tail;
    HasAtConcat(a, b, sep, i);
    HasAtConcat(head, tail, sep, i);
    forall j | 0 <= j < i ensures !HasAt(a + b, j, sep) && !HasAt(head, j, sep) {
      HasAtConcat(a, b, sep, j);
      HasAtConcat(head, tail, sep, j);
    }
  }

  /** Text that arrives later continues the rest and leaves the parts already cut. */
  lemma {:induction false} CutExtends<T>(a: seq<T>, b: seq<T>, sep: seq<T>)
    requires sep != []
    ensures var c := CutBehind(a, sep);
            var d := CutBehind(c.rest + b, sep);
            CutBehind(a + b, sep) == Pieces(c.parts + d.parts, d.rest)
    decreases |a|
  {
    hide CutBehind, Find;
    if Find(a, sep).Some? {
      var i := Find(a, sep).value;
      var n := i + |sep|;
      FindStays(a, b, sep, i);
      CutStep(a, sep, i);
      CutStep(a + b, sep, i);
      CutExtends(a[n..], b, sep);
      var part := a[..n];
      assert (a + b)[n..] == a[n..] + b && (a + b)[..n] == part;
      var c, d := CutBehind(a[n..], sep).parts, CutBehind(CutBehind(a, sep).rest + b, sep).parts;
      assert [part] + (c + d) == ([part] + c) + d;
    } else {
      CutEnd(a, sep);
      assert [] + CutBehind(a + b, sep).parts == CutBehind(a + b, sep).parts;
    }
  }

  /** Cutting loses nothing; each part ends at its only separator, and the rest has none. */
  lemma {:induction false} CutConserves<T>(s: seq<T>, sep: seq<T>)
    requires sep != []
    ensures Flat(CutBehind(s, sep).parts) + CutBehind(s, sep).rest == s && !Contains(CutBehind(s, sep).rest, sep)
    ensures forall k :: 0 <= k < |CutBehind(s, sep).parts| ==>
              var part := CutBehind(s, sep).parts[k]; |part| >= |sep| && Find(part, sep) == Some(|part| - |sep|)
    decreases |s|
  {
    hide CutBehind, Find;
    if Find(s, sep).Some? {
      var i := Find(s, sep).value;
      CutStep(s, sep, i);
      FindStays(s, [], sep, i);
      var part, tail := s[..i + |sep|], s[i + |sep|..];
      CutConserves(tail, sep);
      var c := CutBehind(tail, sep);
      assert forall k :: 1 <= k < |CutBehind(s, sep).parts| ==> CutBehind(s, sep).parts[k] == c.parts[k - 1];
      assert ([part] + c.parts)[1..] == c.parts;
      assert s == part + tail == part + (Flat(c.parts) + c.rest) == part + Flat(c.parts) + c.rest;
    } else {
      CutEnd(s, sep);
    }
  }

  // ------------------------------------------------------------------ numbers

  predicate IsDigit(c: char) {
    '0' <= c <= '9'
  }

  function DigitChar(d: nat): (c: char)
    requires d < 10
    ensures IsDigit(c) && c as int - '0' as int == d
  {
    '0' + d as char
  }

  /** Decimal printing of an unsigned integer. */
  function Decimal(n: nat): (r: string)
    ensures r != [] && forall k :: 0 <= k < |r| ==> IsDigit(r[k])
  {
    if n < 10 then [DigitChar(n)] else Decimal(n / 10) + [DigitChar(n % 10)]
  }

  function DigitsValue(s: string): (r: Option<nat>)
    ensures r.Some? ==> forall k :: 0 <= k < |s| ==> IsDigit(s[k])
  {
    if s == [] then Some(0)
    else if !IsDigit(s[|s| - 1]) then None
    else
      match DigitsValue(s[..|s| - 1])
      case None => None
      case Some(high) => Some(10 * high + (s[|s| - 1] as int - '0' as int))
  }

  /** `str::parse::<u32>`: an optional plus and digits. */
  function ParseU32(s: string): (r: Option<nat>) {
    var digits := if s != [] && s[0] == '+' then s[1..] else s;
    if digits == [] then None
    else
      match DigitsValue(digits)
      case None => None
      case Some(n) => if n < 0x1_0000_0000 then Some(n) else None
  }

  /** `digits` is `n` in base ten, with leading zeros or without. */
  predicate Numeral(digits: string, n: nat) {
    if digits == "" then n == 0
    else digits[|digits| - 1] == "0123456789"[n % 10] && Numeral(digits[..|digits| - 1], n / 10)
  }

  lemma DigitIs(d: nat)
    requires d < 10
    ensures "0123456789"[d] == '0' + d as char
  {
  }

  /** Digits read as a number exactly when they are its numeral. */
  lemma {:induction false} NumeralIff(digits: string, n: nat)
    ensures DigitsValue(digits) == Some(n) <==> Numeral(digits, n)
  {
    if digits != "" {
      NumeralIff(digits[..|digits| - 1], n / 10);
      DigitIs(n % 10);
    }
  }

  /** What is printed is the numeral, without a leading zero. */
  lemma {:induction false} DecimalIsNumeral(n: nat)
    ensures Numeral(Decimal(n), n) && (Decimal(n)[0] == '0' ==> n == 0)
  {
    DigitIs(n % 10);
    if n < 10 {
      assert Decimal(n)[..0] == "";
    } else {
      DecimalIsNumeral(n / 10);
      assert Decimal(n)[..|Decimal(n)| - 1] == Decimal(n / 10);
    }
  }

  /** An unsigned number of 32 bits, as it may be spelled. */
  ghost predicate SpellsU32(s: string, n: nat) {
    n < 4294967296 && exists digits: string :: digits != "" && Numeral(digits, n) && (s == digits || s == "+" + digits)
  }

  lemma {:induction false} NumeralHasDigits(digits: string, n: nat)
    requires Numeral(digits, n) && digits != ""
    ensures digits[0] != '+'
  {
    DigitIs(n % 10);
    if |digits| > 1 {
      NumeralHasDigits(digits[..|digits| - 1], n / 10);
    }
  }

  /** `ParseU32` reads the spellings of the numbers below 2^32, and nothing else. */
  lemma ParseU32Iff(s: string, n: nat)
    ensures ParseU32(s) == Some(n) <==> SpellsU32(s, n)
  {
    hide Numeral, DigitsValue;
    if ParseU32(s) == Some(n) {
      var plus := s[0] == '+';
      var digits := if plus then s[1..] else s;
      NumeralIff(digits, n);
      assert plus ==> s == "+" + digits;
    }
    if SpellsU32(s, n) {
      var digits: string :| digits != "" && Numeral(digits, n) && (s == digits || s == "+" + digits);
      NumeralIff(digits, n);
      NumeralHasDigits(digits, n);
      assert s != digits ==> s[1..] == digits;
    }
  }

  // ------------------------------------------------------------------ filters

  function Filter<T>(p: T -> bool, s: seq<T>): (r: seq<T>)
    ensures forall k :: 0 <= k < |r| ==> p(r[k]) && r[k] in s
  {
    if s == [] then [] else (if p(s[0]) then [s[0]] else []) + Filter(p, s[1..])
  }

  lemma {:induction false} FilterConcat<T>(p: T -> bool, a: seq<T>, b: seq<T>)
    ensures Filter(p, a + b) == Filter(p, a) + Filter(p, b)
  {
    if a == [] {
      assert a + b == b;
    } else {
      assert (a + b)[1..] == a[1..] + b;
      FilterConcat(p, a[1..], b);
    }
  }

  /** Filtering by `q` after `p` is filtering by both. */
  lemma {:induction false} FilterTwice<T>(p: T -> bool, q: T -> bool, pq: T -> bool, s: seq<T>)
    requires forall k :: 0 <= k < |s| ==> (pq(s[k]) <==> p(s[k]) && q(s[k]))
    ensures Filter(q, Filter(p, s)) == Filter(pq, s)
  {
    if s != [] {
      forall k | 0 <= k < |s[1..]| ensures pq(s[1..][k]) <==> p(s[1..][k]) && q(s[1..][k]) {
        assert s[1..][k] == s[k + 1];
      }
      FilterTwice(p, q, pq, s[1..]);
      assert pq(s[0]) <==> p(s[0]) && q(s[0]);
      FilterConcat(q, if p(s[0]) then [s[0]] else [], Filter(p, s[1..]));
      if p(s[0]) {
        assert [s[0]][1..] == [];
        assert Filter(q, [s[0]]) == if q(s[0]) then [s[0]] else [];
      }
    }
  }

  lemma {:induction false} FilterAll<T>(p: T -> bool, s: seq<T>)
    requires forall k :: 0 <= k < |s| ==> p(s[k])
    ensures Filter(p, s) == s
  {
    if s != [] {
      assert p(s[0]);
      assert forall k :: 0 <= k < |s[1..]| ==> s[1..][k] == s[k + 1];
      FilterAll(p, s[1..]);
    }
  }

  lemma {:induction false} FilterNone<T>(p: T -> bool, s: seq<T>)
    requires forall k :: 0 <= k < |s| ==> !p(s[k])
    ensures Filter(p, s) == []
  {
    if s != [] {
      assert !p(s[0]);
      assert forall k :: 0 <= k < |s[1..]| ==> s[1..][k] == s[k + 1];
      FilterNone(p, s[1..]);
    }
  }

  /** Tests that agree on the elements select the same ones. */
  lemma {:induction false} FilterSame<T>(p: T -> bool, q: T -> bool, s: seq<T>)
    requires forall k :: 0 <= k < |s| ==> (p(s[k]) <==> q(s[k]))
    ensures Filter(p, s) == Filter(q, s)
  {
    if s != [] {
      assert p(s[0]) <==> q(s[0]);
      forall k | 0 <= k < |s[1..]| ensures p(s[1..][k]) <==> q(s[1..][k]) {
        assert s[1..][k] == s[k + 1];
      }
      FilterSame(p, q, s[1..]);
    }
  }
}
