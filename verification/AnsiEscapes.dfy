/**
  Removal of terminal control sequences from log lines.
 */
module AnsiEscapes {

  const ESC: char := '\U{1B}'
  const BEL: char := '\U{07}'

  predicate IsLetter(c: char) {
    'a' <= c <= 'z' || 'A' <= c <= 'Z'
  }

  // ------------------------------------------------- the scanner as functions

  /** Where the text resumes after `ESC [`: behind the first letter, or at the end. */
  function AfterCsi(s: string, i: nat): (r: nat)
    requires i <= |s|
    ensures i <= r <= |s|
    decreases |s| - i
  {
    if i == |s| then i else if IsLetter(s[i]) then i + 1 else AfterCsi(s, i + 1)
  }

  /** Where the text resumes after `ESC ]`: behind BEL, behind ESC (and its backslash), or at the end. */
  function AfterOsc(s: string, i: nat): (r: nat)
    requires i <= |s|
    ensures i <= r <= |s|
    decreases |s| - i
  {
    if i == |s| then i
    else if s[i] == BEL then i + 1
    else if s[i] == ESC then (if i + 1 < |s| && s[i + 1] == '\\' then i + 2 else i + 1)
    else AfterOsc(s, i + 1)
  }

  /** Where the text resumes after the ESC at `i`. */
  function AfterEscape(s: string, i: nat): (r: nat)
    requires i < |s|
    ensures i < r <= |s|
  {
    if i + 1 == |s| then i + 1
    else if s[i + 1] == '[' then AfterCsi(s, i + 2)
    else if s[i + 1] == ']' then AfterOsc(s, i + 2)
    else i + 2
  }

  /** The text from `i` on with its escapes removed. */
  function StripFrom(s: string, i: nat): (r: string)
    requires i <= |s|
    decreases |s| - i
  {
    if i == |s| then []
    else if s[i] == ESC then StripFrom(s, AfterEscape(s, i))
    else [s[i]] + StripFrom(s, i + 1)
  }

  function Strip(s: string): (r: string) {
    StripFrom(s, 0)
  }

  // ----------------------------------------------------------- the scanner

  method StripAnsiEscapes(s: string) returns (result: string)
    ensures result == Strip(s)
  {
    result := [];
    var i := 0;
    while i < |s|
      invariant i <= |s|
      invariant result + StripFrom(s, i) == Strip(s)
    {
      var c := s[i];
      i := i + 1;
      if c == ESC {
        if i < |s| && s[i] == '[' {
          i := i + 1;
          i := SkipCsi(s, i);
        } else if i < |s| && s[i] == ']' {
          i := i + 1;
          i := SkipOsc(s, i);
        } else if i < |s| {
          i := i + 1;
        }
      } else {
        assert result + ([c] + StripFrom(s, i)) == result + [c] + StripFrom(s, i);
        result := result + [c];
      }
    }
  }

  method SkipCsi(s: string, start: nat) returns (i: nat)
    requires start <= |s|
    ensures i == AfterCsi(s, start)
  {
    i := start;
    while i < |s|
      invariant start <= i <= |s|
      invariant AfterCsi(s, i) == AfterCsi(s, start)
    {
      var ch := s[i];
      i := i + 1;
      if IsLetter(ch) {
        return;
      }
    }
  }

  method SkipOsc(s: string, start: nat) returns (i: nat)
    requires start <= |s|
    ensures i == AfterOsc(s, start)
  {
    i := start;
    while i < |s|
      invariant start <= i <= |s|
      invariant AfterOsc(s, i) == AfterOsc(s, start)
    {
      var ch := s[i];
      i := i + 1;
      if ch == BEL {
        return;
      }
      if ch == ESC {
        if i < |s| && s[i] == '\\' {
          i := i + 1;
        }
        return;
      }
    }
  }

  // --------------------------------------------------------------- properties

  lemma {:induction false} NoEscapeLeft(s: string, i: nat)
    requires i <= |s|
    ensures ESC !in StripFrom(s, i) && |StripFrom(s, i)| <= |s| - i
    decreases |s| - i
  {
    if i < |s| {
      NoEscapeLeft(s, if s[i] == ESC then AfterEscape(s, i) else i + 1);
    }
  }

  lemma {:induction false} IdentityFrom(s: string, i: nat)
    requires i <= |s| && forall k :: i <= k < |s| ==> s[k] != ESC
    ensures StripFrom(s, i) == s[i..]
    decreases |s| - i
  {
    if i < |s| {
      IdentityFrom(s, i + 1);
    }
  }

  /** The output never holds an ESC, text without one is left alone, and stripping twice is stripping once. */
  lemma StripIsIdempotent(s: string)
    ensures '\U{1B}' !in Strip(s) && Strip(Strip(s)) == Strip(s)
    ensures Strip(s) == s <==> '\U{1B}' !in s
  {
    NoEscapeLeft(s, 0);
    IdentityFrom(Strip(s), 0);
    if ESC !in s {
      IdentityFrom(s, 0);
      assert s[0..] == s;
    }
  }

  // ------------------------------------------------ text with sequences inserted

  /** A piece of terminal output: a visible character or one whole control sequence (ECMA-48, section 5.4). */
  datatype Piece =
    | Visible(c: char)
    | Csi(params: string, final: char)            // ESC [ params final
    | OscBel(body: string)                        // ESC ] body BEL
    | OscSt(body: string)                         // ESC ] body ESC \
    | Short(c: char)                              // ESC c

  /** Sequences the scanner recognises: CSI ended by its first letter, OSC ended by its first BEL or ESC. */
  predicate Complete(p: Piece) {
    match p
    case Visible(c) => c != ESC
    case Csi(params, final) => IsLetter(final) && forall k :: 0 <= k < |params| ==> !IsLetter(params[k])
    case OscBel(body) => ESC !in body && BEL !in body
    case OscSt(body) => ESC !in body && BEL !in body
    case Short(c) => c != '[' && c != ']'
  }

  function Rendered(p: Piece): (r: string)
    ensures r != []
  {
    match p
    case Visible(c) => [c]
    case Csi(params, final) => [ESC, '['] + params + [final]
    case OscBel(body) => [ESC, ']'] + body + ['\U{07}']
    case OscSt(body) => [ESC, ']'] + body + [ESC, '\\']
    case Short(c) => [ESC, c]
  }

  function Render(ps: seq<Piece>): (r: string) {
    if ps == [] then [] else Rendered(ps[0]) + Render(ps[1..])
  }

  /** What a reader should see of it. */
  function Text(ps: seq<Piece>): (r: string) {
    if ps == [] then [] else (if ps[0].Visible? then [ps[0].c] else []) + Text(ps[1..])
  }

  lemma {:induction false} CsiEnds(s: string, i: nat, e: nat)
    requires i <= e < |s| && IsLetter(s[e]) && forall k :: i <= k < e ==> !IsLetter(s[k])
    ensures AfterCsi(s, i) == e + 1
    decreases e - i
  {
    if i < e {
      CsiEnds(s, i + 1, e);
    }
  }

  lemma {:induction false} OscEnds(s: string, i: nat, e: nat)
    requires i <= e < |s| && (s[e] == BEL || s[e] == ESC)
    requires forall k :: i <= k < e ==> s[k] != BEL && s[k] != ESC
    ensures AfterOsc(s, i) == AfterOsc(s, e)
    decreases e - i
  {
    if i < e {
      OscEnds(s, i + 1, e);
    }
  }

  predicate At(s: string, i: nat, r: string) {
    i + |r| <= |s| && s[i..i + |r|] == r
  }

  lemma AtSplits(s: string, i: nat, a: string, b: string)
    ensures At(s, i, a + b) <==> At(s, i, a) && At(s, i + |a|, b)
  {
    if i + |a| + |b| <= |s| {
      var whole := s[i..i + |a| + |b|];
      assert whole == s[i..i + |a|] + s[i + |a|..i + |a| + |b|];
      assert whole[..|a|] == s[i..i + |a|] && whole[|a|..] == s[i + |a|..i + |a| + |b|];
      assert (a + b)[..|a|] == a && (a + b)[|a|..] == b;
    }
  }

  lemma AtIndex(s: string, i: nat, r: string)
    requires At(s, i, r)
    ensures forall k :: i <= k < i + |r| ==> s[k] == r[k - i]
  {
    assert forall k :: i <= k < i + |r| ==> s[k] == s[i..i + |r|][k - i];
  }

  /** Skipping one complete sequence lands exactly behind it. */
  lemma CsiSkipped(s: string, i: nat, params: string, final: char)
    requires Complete(Csi(params, final)) && At(s, i, [ESC, '['] + params + [final])
    ensures s[i] == ESC && AfterEscape(s, i) == i + |params| + 3
  {
    AtSplits(s, i, [ESC, '['] + params, [final]);
    AtSplits(s, i, [ESC, '['], params);
    AtIndex(s, i, [ESC, '[']);
    AtIndex(s, i + 2, params);
    var e := i + 2 + |params|;
    AtIndex(s, e, [final]);
    CsiEnds(s, i + 2, e);
  }

  lemma OscSkipped(s: string, i: nat, body: string, end: string)
    requires ESC !in body && BEL !in body && (end == [BEL] || end == [ESC, '\\'])
    requires At(s, i, [ESC, ']'] + body + end)
    ensures s[i] == ESC && AfterEscape(s, i) == i + |body| + 2 + |end|
  {
    AtSplits(s, i, [ESC, ']'] + body, end);
    AtSplits(s, i, [ESC, ']'], body);
    AtIndex(s, i, [ESC, ']']);
    AtIndex(s, i + 2, body);
    var e := i + 2 + |body|;
    AtIndex(s, e, end);
    OscEnds(s, i + 2, e);
  }

  lemma SequenceEnds(s: string, i: nat, p: Piece)
    requires !p.Visible? && Complete(p) && At(s, i, Rendered(p))
    ensures s[i] == ESC && AfterEscape(s, i) == i + |Rendered(p)|
  {
    match p
    case Csi(params, final) => CsiSkipped(s, i, params, final);
    case OscBel(body) => OscSkipped(s, i, body, [BEL]);
    case OscSt(body) => OscSkipped(s, i, body, [ESC, '\\']);
    case Short(c) => AtIndex(s, i, [ESC, c]);
  }

  lemma NothingLeft(s: string)
    ensures StripFrom(s, |s|) == []
  {
  }

  lemma {:induction false} StripsPiecesFrom(s: string, i: nat, ps: seq<Piece>)
    requires forall k :: 0 <= k < |ps| ==> Complete(ps[k])
    requires |s| == i + |Render(ps)| && At(s, i, Render(ps))
    ensures StripFrom(s, i) == Text(ps)
    decreases |ps|
  {
    hide Complete, Rendered, At, StripFrom;
    if ps == [] {
      NothingLeft(s);
    } else {
      var r := Rendered(ps[0]);
      AtSplits(s, i, r, Render(ps[1..]));
      assert Complete(ps[0]);
      OnePiece(s, i, ps[0]);
      StripsPiecesFrom(s, i + |r|, ps[1..]);
    }
  }

  lemma OnePiece(s: string, i: nat, p: Piece)
    requires Complete(p) && At(s, i, Rendered(p))
    ensures StripFrom(s, i) == (if p.Visible? then [p.c] else []) + StripFrom(s, i + |Rendered(p)|)
  {
    if p.Visible? {
      AtIndex(s, i, [p.c]);
    } else {
      SequenceEnds(s, i, p);
    }
  }

  /** Text with complete sequences inserted anywhere comes back as exactly the text. */
  lemma StripsInsertedSequences(ps: seq<Piece>)
    requires forall k :: 0 <= k < |ps| ==> Complete(ps[k])
    ensures Strip(Render(ps)) == Text(ps)
  {
    StripsPiecesFrom(Render(ps), 0, ps);
  }

  // ------------------------------------------------- finals that are not letters

  /** ECMA-48, section 5.4: parameter and intermediate bytes, then one final byte. */
  predicate IsParameter(c: char) {
    ' ' <= c <= '?'
  }

  predicate IsFinal(c: char) {
    '@' <= c <= '~'
  }

  /**
    A CSI sequence with any standard final byte, in front of ESC-free text, leaves exactly that text
    if and only if the final byte is a letter or there is no text: otherwise the scan runs on into the
    text, up to its first letter.
   */
  lemma CsiLeavesTextIffLetterFinal(params: string, final: char, text: string)
    requires IsFinal(final) && ESC !in text
    requires forall k :: 0 <= k < |params| ==> IsParameter(params[k])
    ensures Strip(['\U{1B}', '['] + params + [final] + text) == text <==>
            'a' <= final <= 'z' || 'A' <= final <= 'Z' || text == []
  {
    var s := [ESC, '['] + params + [final] + text;
    var e := 2 + |params|;
    assert s[e] == final;
    assert forall k :: 2 <= k < e ==> s[k] == params[k - 2];
    assert s[e + 1..] == text;
    assert forall k :: e + 1 <= k < |s| ==> s[k] == text[k - e - 1];
    if IsLetter(final) {
      CsiEnds(s, 2, e);
      IdentityFrom(s, e + 1);
    } else {
      CsiRunsOn(s, 2, e + 1);
      var r := AfterCsi(s, e + 1);
      IdentityFrom(s, r);
    }
  }

  lemma {:induction false} CsiRunsOn(s: string, i: nat, e: nat)
    requires i <= e <= |s| && forall k :: i <= k < e ==> !IsLetter(s[k])
    ensures AfterCsi(s, i) == AfterCsi(s, e)
    decreases e - i
  {
    if i < e {
      CsiRunsOn(s, i + 1, e);
    }
  }

  /** The delete-key sequence, whose final byte is a tilde, takes the text up to its first letter with it. */
  lemma TildeFinalEatsText()
    ensures Strip([ESC, '['] + "2~" + "abc") == "bc"
  {
    var s := [ESC, '['] + "2~" + "abc";
    CsiEnds(s, 2, 4);
    IdentityFrom(s, 5);
    assert s[5..] == "bc";
  }
}
