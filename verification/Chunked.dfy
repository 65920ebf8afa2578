/**
  The CLI's decoder for chunked transfer coding (RFC 9112, section 7.1).
 */
module Chunked {
  import opened Text

  newtype byte = x: int | 0 <= x < 256
  type Bytes = seq<byte>

  const CR: byte := 13
  const LF: byte := 10
  const CRLF: Bytes := [CR, LF]
  const USIZE_MAX: nat := 0xffff_ffff_ffff_ffff

  // ------------------------------------------------------------ size lines

  predicate IsSpace(b: byte) {
    9 <= b <= 13 || b == 32
  }

  function TrimLeft(s: Bytes): Bytes {
    if s != [] && IsSpace(s[0]) then TrimLeft(s[1..]) else s
  }

  function TrimRight(s: Bytes): Bytes {
    if s != [] && IsSpace(s[|s| - 1]) then TrimRight(s[..|s| - 1]) else s
  }

  function HexValue(b: byte): (r: Option<nat>)
    ensures r.Some? ==> r.value < 16
  {
    if '0' as int <= b as int <= '9' as int then Some(b as int - '0' as int)
    else if 'a' as int <= b as int <= 'f' as int then Some(b as int - 'a' as int + 10)
    else if 'A' as int <= b as int <= 'F' as int then Some(b as int - 'A' as int + 10)
    else None
  }

  function HexNumber(s: Bytes): (r: Option<nat>) {
    if s == [] then Some(0)
    else
      match (HexNumber(s[..|s| - 1]), HexValue(s[|s| - 1]))
      case (Some(high), Some(low)) => Some(16 * high + low)
      case _ => None
  }

  /** `usize::from_str_radix(line.trim(), 16)`: an optional plus, at least one digit, no overflow. */
  function ParseSize(line: Bytes): (r: Option<nat>)
    ensures r.Some? ==> r.value <= USIZE_MAX
  {
    var s := TrimRight(TrimLeft(line));
    var digits := if s != [] && s[0] as int == '+' as int then s[1..] else s;
    if digits == [] then None
    else
      match HexNumber(digits)
      case Some(n) => if n <= USIZE_MAX then Some(n) else None
      case None => None
  }

  // -------------------------------------------------------------- decoding

  /** Adding a chunk's size to its offset is unchecked: past `usize` the program stops there. */
  datatype Outcome = Decoded(body: Bytes) | Overflow

  function Prepend(part: Bytes, o: Outcome): Outcome {
    match o
    case Decoded(body) => Decoded(part + body)
    case Overflow => Overflow
  }

  function Min(a: nat, b: nat): nat { if a < b then a else b }

  /** One round of the loop: stop with the last part, stop on overflow, or go on `skip` bytes further. */
  datatype Round = Last(part: Bytes) | Broken | More(part: Bytes, skip: nat)

  /** The round over the wire bytes `s`, which start at offset `at`. */
  function RoundOf(s: Bytes, at: nat): (r: Round)
    ensures r.More? ==> 0 < r.skip < |s|
  {
    match Find(s, CRLF)
    case None => Last([])
    case Some(p) =>
      match ParseSize(s[..p])
      case None => Last([])
      case Some(size) => if size == 0 then Last([]) else TakeChunk(s, at, p + 2, size)
  }

  function TakeChunk(s: Bytes, at: nat, start: nat, size: nat): (r: Round)
    requires start <= |s|
    ensures r.More? ==> start < r.skip < |s|
  {
    if at + start + size > USIZE_MAX then Broken
    else
      var end := Min(start + size, |s|);
      if end + 2 >= |s| then Last(s[start..end]) else More(s[start..end], end + 2)
  }

  function Decode(s: Bytes, at: nat): (r: Outcome)
    decreases |s|
  {
    match RoundOf(s, at)
    case Last(part) => Decoded(part)
    case Broken => Overflow
    case More(part, skip) => Prepend(part, Decode(s[skip..], at + skip))
  }

  /** A round in positions of the whole wire. */
  lemma TakeChunkAt(data: Bytes, pos: nat, start: nat, size: nat)
    requires pos <= start <= |data|
    ensures TakeChunk(data[pos..], pos, start - pos, size) ==
            var end := Min(start + size, |data|);
            if start + size > USIZE_MAX then Broken
            else if end + 2 >= |data| then Last(data[start..end])
            else More(data[start..end], end + 2 - pos)
  {
    var end := Min(start + size, |data|);
    assert data[pos..][start - pos..end - pos] == data[start..end];
  }

  lemma PrependTwice(a: Bytes, b: Bytes, o: Outcome)
    ensures Prepend(a, Prepend(b, o)) == Prepend(a + b, o)
  {
    if o.Decoded? {
      assert a + (b + o.body) == a + b + o.body;
    }
  }

  method DecodeChunked(data: Bytes) returns (r: Outcome)
    ensures r == Decode(data, 0)
  {
    hide ParseSize, Find, TakeChunk;
    var result: Bytes := [];
    var pos := 0;
    assert data[0..] == data;
    while true
      invariant pos <= |data|
      invariant Decode(data, 0) == Prepend(result, Decode(data[pos..], pos))
      decreases |data| - pos
    {
      var line_end;
      match Find(data[pos..], CRLF) {
        case Some(p) => line_end := pos + p;
        case None => break;
      }
      assert data[pos..][..line_end - pos] == data[pos..line_end];
      var size;
      match ParseSize(data[pos..line_end]) {
        case Some(n) => size := n;
        case None => break;
      }
      if size == 0 { break; }
      var chunk_start := line_end + 2;
      TakeChunkAt(data, pos, chunk_start, size);
      if chunk_start + size > USIZE_MAX {
        return Overflow;
      }
      var chunk_end := Min(chunk_start + size, |data|);
      if chunk_end + 2 < |data| {
        assert data[pos..][chunk_end + 2 - pos..] == data[chunk_end + 2..];
        PrependTwice(result, data[chunk_start..chunk_end], Decode(data[chunk_end + 2..], chunk_end + 2));
      }
      result := result + data[chunk_start..chunk_end];
      pos := chunk_end + 2;
      if pos >= |data| {
        return Decoded(result);
      }
    }
    assert result + [] == result;
    r := Decoded(result);
  }

  // -------------------------------------------------------------- encoding

  /** One chunk as a sender may write it: any spelling of its size, then its data. */
  datatype Chunk = Chunk(header: Bytes, data: Bytes)

  predicate WellFormed(c: Chunk) {
    c.data != [] && ParseSize(c.header) == Some(|c.data|) && !Contains(c.header, CRLF)
  }

  predicate AllWellFormed(cs: seq<Chunk>) {
    forall k :: 0 <= k < |cs| ==> WellFormed(cs[k])
  }

  function Encode(cs: seq<Chunk>, end: Bytes): (r: Bytes) {
    if cs == [] then end
    else cs[0].header + [13, 10] + (cs[0].data + [13, 10] + Encode(cs[1..], end))
  }

  function Body(cs: seq<Chunk>): (r: Bytes) {
    if cs == [] then [] else cs[0].data + Body(cs[1..])
  }

  lemma CrlfIs(s: Bytes, i: int)
    ensures HasAt(s, i, CRLF) <==> 0 <= i && i + 2 <= |s| && s[i] == CR && s[i + 1] == LF
  {
    if 0 <= i && i + 2 <= |s| {
      assert s[i..i + 2] == [s[i], s[i + 1]];
    }
  }

  /** The first CRLF of a wire that starts with a header line ends that header. */
  lemma HeaderEnds(h: Bytes, rest: Bytes)
    requires !Contains(h, CRLF)
    ensures Find(h + CRLF + rest, CRLF) == Some(|h|)
    ensures (h + CRLF + rest)[..|h|] == h && (h + CRLF + rest)[|h| + 2..] == rest
  {
    var s := h + CRLF + rest;
    CrlfIs(s, |h|);
    forall j | 0 <= j < |h| ensures !HasAt(s, j, CRLF) {
      CrlfIs(s, j);
      CrlfIs(h, j);
      assert !HasAt(h, j, CRLF);
      assert s[j] == h[j] && s[j + 1] == (h + [CR])[j + 1];
    }
  }

  /** A wire cut inside its first header line, or between that line's CR and LF, has no CRLF yet. */
  lemma CutHeader(h: Bytes, rest: Bytes, k: nat)
    requires !Contains(h, CRLF) && k < |h| + 2
    ensures Find((h + CRLF + rest)[..k], CRLF) == None
  {
    var s := h + CRLF + rest;
    HeaderEnds(h, rest);
    forall j ensures !HasAt(s[..k], j, CRLF) {
      CrlfIs(s[..k], j);
      CrlfIs(s, j);
      if 0 <= j < |h| {
        assert !HasAt(s, j, CRLF);
      }
    }
  }

  predicate Prefix(a: Bytes, b: Bytes) {
    |a| <= |b| && a == b[..|a|]
  }

  lemma ChunkData(h: Bytes, d: Bytes, more: Bytes, k: nat)
    requires |h| + 2 <= k <= |h| + |d| + |more| + 4
    ensures var s, end := (h + CRLF + (d + CRLF + more))[..k], Min(|h| + 2 + |d|, k);
            s[|h| + 2..end] == d[..end - |h| - 2]
  {
    var s, end := (h + CRLF + (d + CRLF + more))[..k], Min(|h| + 2 + |d|, k);
    assert forall i :: 0 <= i < end - |h| - 2 ==> s[|h| + 2 + i] == d[i];
  }

  /** A wire that starts with one chunk, cut anywhere. */
  lemma CutOneChunk(c: Chunk, more: Bytes, k: nat, at: nat)
    requires WellFormed(c) && at + |c.header| + 2 + |c.data| <= USIZE_MAX
    requires k <= |c.header| + |c.data| + |more| + 4
    ensures var s, body := (c.header + CRLF + (c.data + CRLF + more))[..k], |c.header| + 2;
            RoundOf(s, at) ==
              if k < body then Last([])
              else if k <= body + |c.data| + 2 then Last(c.data[..Min(|c.data|, k - body)])
              else More(c.data, body + |c.data| + 2)
    ensures k > |c.header| + |c.data| + 4 ==>
              (c.header + CRLF + (c.data + CRLF + more))[..k][|c.header| + |c.data| + 4..]
              == more[..k - |c.header| - |c.data| - 4]
  {
    hide ParseSize, Find;
    var h, d := c.header, c.data;
    var tail := d + CRLF + more;
    var s := (h + CRLF + tail)[..k];
    if k < |h| + 2 {
      CutHeader(h, tail, k);
    } else {
      assert s == h + CRLF + tail[..k - |h| - 2];
      HeaderEnds(h, tail[..k - |h| - 2]);
      ChunkData(h, d, more, k);
    }
  }

  /**
    Cut the wire anywhere: what is decoded is a prefix of the body, and all of it once the wire is
    whole. `end` is whatever follows the last chunk and itself decodes to nothing.
   */
  lemma {:induction false} DecodeCut(cs: seq<Chunk>, end: Bytes, k: nat, at: nat)
    requires AllWellFormed(cs) && k <= |Encode(cs, end)| && at + |Encode(cs, end)| <= USIZE_MAX
    requires forall j, o :: 0 <= j <= |end| ==> Decode(end[..j], o) == Decoded([])
    ensures var o := Decode(Encode(cs, end)[..k], at);
            && o.Decoded? && Prefix(o.body, Body(cs))
            && (k == |Encode(cs, end)| ==> o.body == Body(cs))
    decreases |cs|
  {
    hide RoundOf, Find, WellFormed, Contains, ParseSize;
    if cs != [] {
      var c, more := cs[0], Encode(cs[1..], end);
      var body := |c.header| + 2;
      assert WellFormed(c);
      CutOneChunk(c, more, k, at);
      if k > body + |c.data| + 2 {
        var k', at' := k - body - |c.data| - 2, at + body + |c.data| + 2;
        DecodeCut(cs[1..], end, k', at');
        PrefixExtends(c.data, Decode(more[..k'], at').body, Body(cs[1..]));
        assert Encode(cs, end)[..k][|c.header| + |c.data| + 4..] == more[..k'];
      } else if k == |Encode(cs, end)| {
        EmptyMore(cs[1..], end);
        assert c.data[..|c.data|] + [] == c.data;
      }
    } else {
      assert Encode(cs, end)[..k] == end[..k];
    }
  }

  lemma PrefixExtends(d: Bytes, a: Bytes, b: Bytes)
    requires Prefix(a, b)
    ensures Prefix(d + a, d + b)
  {
    assert (d + b)[..|d + a|] == d + b[..|a|];
  }

  lemma EmptyMore(cs: seq<Chunk>, end: Bytes)
    requires Encode(cs, end) == []
    ensures Body(cs) == []
  {
  }

  /**
    The last chunk (`0 CRLF`, any spelling of zero) and everything after it — trailers included — decode to
    nothing, however cut.
   */
  lemma LastChunkDecodesToNothing(h: Bytes, rest: Bytes, k: nat, at: nat)
    requires ParseSize(h) == Some(0) && !Contains(h, CRLF) && k <= |h + CRLF + rest|
    ensures Decode((h + CRLF + rest)[..k], at) == Decoded([])
  {
    var s := h + CRLF + rest;
    if k < |h| + 2 {
      CutHeader(h, rest, k);
    } else {
      assert s[..k] == h + CRLF + rest[..k - |h| - 2];
      HeaderEnds(h, rest[..k - |h| - 2]);
    }
  }

  /**
    Decoding any extension-free encoding of non-empty chunks gives their concatenation; decoding any truncation
    of it, a prefix.
   */
  lemma DecodesEncodings(cs: seq<Chunk>, last: Bytes, trailer: Bytes, k: nat)
    requires AllWellFormed(cs) && ParseSize(last) == Some(0) && !Contains(last, CRLF)
    requires k <= |Encode(cs, last + CRLF + trailer)| <= USIZE_MAX
    ensures var wire := Encode(cs, last + CRLF + trailer);
            && Decode(wire, 0) == Decoded(Body(cs))
            && Decode(wire[..k], 0).Decoded? && Prefix(Decode(wire[..k], 0).body, Body(cs))
  {
    var end := last + CRLF + trailer;
    forall j, o | 0 <= j <= |end| ensures Decode(end[..j], o) == Decoded([]) {
      LastChunkDecodesToNothing(last, trailer, j, o);
    }
    var wire := Encode(cs, end);
    DecodeCut(cs, end, k, 0);
    DecodeCut(cs, end, |wire|, 0);
    assert wire[..|wire|] == wire;
  }

  // ------------------------------------------------- the usual spelling of sizes

  /** A hexadecimal digit of the given value, in either case. */
  predicate IsHexDigit(b: byte, value: nat) {
    && value < 16
    && (b as int == "0123456789abcdef"[value] as int || b as int == "0123456789ABCDEF"[value] as int)
  }

  /** `digits` is `n` in base sixteen: any mixture of cases, any number of leading zeros. */
  predicate Spells(digits: Bytes, n: nat) {
    if digits == [] then n == 0
    else IsHexDigit(digits[|digits| - 1], n % 16) && Spells(digits[..|digits| - 1], n / 16)
  }

  lemma HexDigitIff(b: byte, value: nat)
    ensures HexValue(b) == Some(value) <==> IsHexDigit(b, value)
  {
    if value < 10 {
      assert "0123456789abcdef"[value] == "0123456789ABCDEF"[value] == '0' + value as char;
    } else if value < 16 {
      assert "0123456789abcdef"[value] == 'a' + (value - 10) as char;
      assert "0123456789ABCDEF"[value] == 'A' + (value - 10) as char;
    }
  }

  /** A digit string reads as a number exactly when it spells it. */
  lemma {:induction false} SpellsIff(digits: Bytes, n: nat)
    ensures HexNumber(digits) == Some(n) <==> Spells(digits, n)
  {
    hide HexValue, IsHexDigit;
    if digits != [] {
      SpellsIff(digits[..|digits| - 1], n / 16);
      HexDigitIff(digits[|digits| - 1], n % 16);
    }
  }

  lemma {:induction false} SpelledBytes(digits: Bytes, n: nat, k: nat)
    requires Spells(digits, n) && k < |digits|
    ensures !IsSpace(digits[k]) && digits[k] as int != '+' as int
  {
    hide IsHexDigit;
    if k == |digits| - 1 {
      HexDigitIff(digits[k], n % 16);
    } else {
      SpelledBytes(digits[..|digits| - 1], n / 16, k);
    }
  }

  predicate AllSpace(s: Bytes) {
    forall k :: 0 <= k < |s| ==> s[k] in [9, 10, 11, 12, 13, 32]
  }

  lemma {:induction false} TrimLeftCore(w: Bytes, s: Bytes)
    requires AllSpace(w) && (s != [] ==> !IsSpace(s[0]))
    ensures TrimLeft(w + s) == s
  {
    if w == [] {
      assert w + s == s;
    } else {
      assert (w + s)[1..] == w[1..] + s;
      TrimLeftCore(w[1..], s);
    }
  }

  lemma {:induction false} TrimRightCore(s: Bytes, w: Bytes)
    requires AllSpace(w) && (s != [] ==> !IsSpace(s[|s| - 1]))
    ensures TrimRight(s + w) == s
  {
    if w == [] {
      assert s + w == s;
    } else {
      assert (s + w)[..|s + w| - 1] == s + w[..|w| - 1];
      TrimRightCore(s, w[..|w| - 1]);
    }
  }

  lemma {:induction false} TrimLeftShape(s: Bytes) returns (w: Bytes)
    ensures AllSpace(w) && s == w + TrimLeft(s)
    decreases |s|
  {
    w := [];
    if s != [] && IsSpace(s[0]) {
      var v := TrimLeftShape(s[1..]);
      w := [s[0]] + v;
      assert s == [s[0]] + s[1..];
    }
  }

  lemma {:induction false} TrimRightShape(s: Bytes) returns (w: Bytes)
    ensures AllSpace(w) && s == TrimRight(s) + w
    decreases |s|
  {
    w := [];
    if s != [] && IsSpace(s[|s| - 1]) {
      var v := TrimRightShape(s[..|s| - 1]);
      w := v + [s[|s| - 1]];
      assert s == s[..|s| - 1] + [s[|s| - 1]];
    }
  }

  /** A size line: white space around digits that spell the size. */
  predicate SizeLine(w: Bytes, digits: Bytes, v: Bytes, n: nat) {
    AllSpace(w) && AllSpace(v) && digits != [] && Spells(digits, n)
  }

  function PrintSize(w: Bytes, plus: bool, digits: Bytes, v: Bytes): Bytes {
    w + (if plus then ['+' as int as byte] else []) + digits + v
  }

  /** Every spelling of a size that `usize` holds is read as that size. */
  lemma SpelledSizeIsRead(w: Bytes, plus: bool, digits: Bytes, v: Bytes, n: nat)
    requires SizeLine(w, digits, v, n)
    ensures ParseSize(PrintSize(w, plus, digits, v)) == if n <= 0xffff_ffff_ffff_ffff then Some(n) else None
  {
    hide HexNumber, Spells, TrimLeft, TrimRight;
    SpelledBytes(digits, n, 0);
    SpelledBytes(digits, n, |digits| - 1);
    SpellsIff(digits, n);
    var core := (if plus then ['+' as int as byte] else []) + digits;
    assert PrintSize(w, plus, digits, v) == w + (core + v);
    assert core[|core| - 1] == digits[|digits| - 1];
    TrimLeftCore(w, core + v);
    TrimRightCore(core, v);
    assert TrimRight(TrimLeft(PrintSize(w, plus, digits, v))) == core;
    assert if plus then core[1..] == digits else core == digits;
  }

  /** Whatever is read as a size is a spelling of it. */
  lemma ReadSizeIsSpelled(line: Bytes) returns (w: Bytes, plus: bool, digits: Bytes, v: Bytes)
    requires ParseSize(line).Some?
    ensures SizeLine(w, digits, v, ParseSize(line).value) && line == PrintSize(w, plus, digits, v)
  {
    hide HexNumber, Spells, TrimLeft, TrimRight;
    w := TrimLeftShape(line);
    v := TrimRightShape(TrimLeft(line));
    var s := TrimRight(TrimLeft(line));
    plus := s[0] as int == '+' as int;
    digits := if plus then s[1..] else s;
    SpellsIff(digits, ParseSize(line).value);
    assert plus ==> s == [s[0]] + digits;
  }

  /** A chunk whose header is any spelling of its size, CR aside: an encoder's chunk, whatever bytes it holds. */
  lemma PlainChunksAreWellFormed(w: Bytes, plus: bool, digits: Bytes, v: Bytes, data: Bytes)
    requires 0 < |data| <= USIZE_MAX && SizeLine(w, digits, v, |data|) && 13 !in w && 13 !in v
    ensures WellFormed(Chunk(PrintSize(w, plus, digits, v), data))
  {
    hide ParseSize, PrintSize;
    SpelledSizeIsRead(w, plus, digits, v, |data|);
    SpelledHasNoCr(w, plus, digits, v, |data|);
    LacksElement(PrintSize(w, plus, digits, v), CRLF, CR);
  }

  lemma SpelledHasNoCr(w: Bytes, plus: bool, digits: Bytes, v: Bytes, n: nat)
    requires SizeLine(w, digits, v, n) && 13 !in w && 13 !in v
    ensures CR !in PrintSize(w, plus, digits, v)
  {
    forall k | 0 <= k < |digits| ensures digits[k] != CR {
      SpelledBytes(digits, n, k);
    }
  }

  /** A chunk as an encoder writes it: the spelling of its size in upper or lower case, zeros before it or not. */
  predicate Spelled(c: Chunk) {
    c.data != [] && c.header != [] && Spells(c.header, |c.data|)
  }

  /**
    The law of the decoder in the wire's own terms: a body cut into chunks, each behind its size in any
    spelling, decodes to itself, and a truncation of the wire to a prefix of it.
   */
  lemma DecodesSpelledChunks(cs: seq<Chunk>, zeros: Bytes, trailer: Bytes, k: nat)
    requires forall i :: 0 <= i < |cs| ==> Spelled(cs[i])
    requires zeros != [] && Spells(zeros, 0)
    requires k <= |Encode(cs, zeros + [13, 10] + trailer)| <= USIZE_MAX
    ensures var wire := Encode(cs, zeros + [13, 10] + trailer);
            && Decode(wire, 0) == Decoded(Body(cs))
            && Decode(wire[..k], 0).Decoded? && Prefix(Decode(wire[..k], 0).body, Body(cs))
  {
    hide WellFormed, ParseSize, Spells, Contains;
    SpelledSizeIsRead([], false, zeros, [], 0);
    SpelledHasNoCr([], false, zeros, [], 0);
    assert PrintSize([], false, zeros, []) == zeros;
    LacksElement(zeros, CRLF, CR);
    EncodingHoldsData(cs, zeros + CRLF + trailer);
    forall i | 0 <= i < |cs| ensures WellFormed(cs[i]) {
      var c := cs[i];
      PlainChunksAreWellFormed([], false, c.header, [], c.data);
      assert PrintSize([], false, c.header, []) == c.header;
    }
    DecodesEncodings(cs, zeros, trailer, k);
  }

  lemma {:induction false} EncodingHoldsData(cs: seq<Chunk>, end: Bytes)
    ensures forall i :: 0 <= i < |cs| ==> |cs[i].data| <= |Encode(cs, end)|
  {
    if cs != [] {
      EncodingHoldsData(cs[1..], end);
      assert forall i :: 1 <= i < |cs| ==> cs[i] == cs[1..][i - 1];
    }
  }

  // ------------------------------------------------------ where it falls short

  /** The size lines met at chunk boundaries: where each chunk's data starts, and its announced size. */
  datatype Announced = Announced(start: nat, size: nat)

  function SizeLines(s: Bytes, at: nat): (r: seq<Announced>)
    decreases |s|
  {
    match Find(s, CRLF)
    case None => []
    case Some(p) =>
      match ParseSize(s[..p])
      case None => []
      case Some(size) =>
        var next := p + size + 4;
        [Announced(at + p + 2, size)] +
        if size == 0 || next >= |s| then [] else SizeLines(s[next..], at + next)
  }

  ghost predicate TooMuch(lines: seq<Announced>) {
    exists k :: 0 <= k < |lines| && lines[k].start + lines[k].size > USIZE_MAX
  }

  lemma TooMuchCons(a: Announced, lines: seq<Announced>)
    ensures TooMuch([a] + lines) <==> a.start + a.size > USIZE_MAX || TooMuch(lines)
  {
    var all := [a] + lines;
    assert forall k :: 0 <= k < |lines| ==> all[k + 1] == lines[k];
    assert all[0] == a;
  }

  /** What a round does, by the size line it meets. */
  lemma RoundBySize(s: Bytes, at: nat, p: nat, size: nat)
    requires Find(s, CRLF) == Some(p) && ParseSize(s[..p]) == Some(size)
    requires at + |s| <= USIZE_MAX
    ensures RoundOf(s, at).Broken? <==> at + p + 2 + size > USIZE_MAX
    ensures RoundOf(s, at).More? <==> size != 0 && p + size + 4 < |s|
    ensures RoundOf(s, at).More? ==> RoundOf(s, at).skip == p + size + 4
  {
    hide ParseSize, Find;
  }

  /** The decoder overflows exactly when some chunk announces more bytes than `usize` has left above its offset. */
  lemma {:induction false} OverflowIff(s: Bytes, at: nat)
    requires at + |s| <= USIZE_MAX
    ensures Decode(s, at).Overflow? <==> TooMuch(SizeLines(s, at))
    decreases |s|
  {
    hide Find, ParseSize, TakeChunk, TooMuch;
    if Find(s, CRLF).Some? && ParseSize(s[..Find(s, CRLF).value]).Some? {
      var p := Find(s, CRLF).value;
      var size := ParseSize(s[..p]).value;
      var first, next := Announced(at + p + 2, size), p + size + 4;
      RoundBySize(s, at, p, size);
      if size != 0 && next < |s| {
        OverflowIff(s[next..], at + next);
        TooMuchCons(first, SizeLines(s[next..], at + next));
      } else {
        TooMuchCons(first, []);
      }
    }
    TooMuchNone();
  }

  lemma TooMuchNone()
    ensures !TooMuch([])
  {
  }

  /** Sixteen hexadecimal `f`s and a CRLF are enough. */
  lemma OversizeHeaderOverflows()
    ensures Decode(seq(16, i => 'f' as int as byte) + CRLF, 0) == Overflow
  {
    var h: Bytes := seq(16, i => 'f' as int as byte);
    forall j ensures !HasAt(h, j, CRLF) {
      CrlfIs(h, j);
    }
    HeaderEnds(h, []);
    assert h + CRLF + [] == h + CRLF;
    HexFs(h);
  }

  lemma HexFs(h: Bytes)
    requires |h| == 16 && forall k :: 0 <= k < 16 ==> h[k] as int == 'f' as int
    ensures ParseSize(h) == Some(USIZE_MAX)
  {
    assert HexNumber(h[..0]) == Some(0);
    HexStep(h, 0); HexStep(h, 1); HexStep(h, 2); HexStep(h, 3);
    HexStep(h, 4); HexStep(h, 5); HexStep(h, 6); HexStep(h, 7);
    HexStep(h, 8); HexStep(h, 9); HexStep(h, 10); HexStep(h, 11);
    HexStep(h, 12); HexStep(h, 13); HexStep(h, 14); HexStep(h, 15);
    assert h[..16] == h;
  }

  lemma HexStep(h: Bytes, k: nat)
    requires k < |h| && h[k] as int == 'f' as int && HexNumber(h[..k]).Some?
    ensures HexNumber(h[..k + 1]) == Some(16 * HexNumber(h[..k]).value + 15)
  {
    assert h[..k + 1][..k] == h[..k];
  }

  lemma {:induction false} NotANumber(s: Bytes, k: nat)
    requires k < |s| && HexValue(s[k]).None?
    ensures HexNumber(s).None?
    decreases |s|
  {
    if k < |s| - 1 {
      NotANumber(s[..|s| - 1], k);
    }
  }

  lemma {:induction false} TrimKeeps(s: Bytes, b: byte)
    requires b in s && !IsSpace(b)
    ensures b in TrimLeft(s) && b in TrimRight(s)
    decreases |s|
  {
    if IsSpace(s[0]) {
      assert b in s[1..];
      TrimKeeps(s[1..], b);
    }
    if IsSpace(s[|s| - 1]) {
      assert s == s[..|s| - 1] + [s[|s| - 1]];
      assert b in s[..|s| - 1];
      TrimKeeps(s[..|s| - 1], b);
    }
  }

  /**
    A chunk extension ends the decoding: section 7.1.1 asks a recipient to ignore it, the decoder drops the rest
    of the body.
   */
  lemma ExtensionStopsDecoding(h: Bytes, rest: Bytes, at: nat)
    requires !Contains(h, CRLF) && ';' as int as byte in h
    ensures Decode(h + CRLF + rest, at) == Decoded([])
  {
    var semi := ';' as int as byte;
    HeaderEnds(h, rest);
    TrimKeeps(h, semi);
    TrimKeeps(TrimLeft(h), semi);
    var s := TrimRight(TrimLeft(h));
    var k :| 0 <= k < |s| && s[k] == semi;
    NotANumber(s, k);
    if s[0] as int == '+' as int {
      NotANumber(s[1..], k - 1);
    }
  }

  /** A chunk with what stands between its size and its line end: nothing, or an extension with its semicolon. */
  datatype Sent = Sent(size: Bytes, extension: Bytes, data: Bytes)

  const SEMICOLON := ';' as int as byte

  predicate Sendable(c: Sent) {
    && c.data != [] && ParseSize(c.size) == Some(|c.data|) && !Contains(c.size + c.extension, CRLF)
    && (c.extension != [] ==> SEMICOLON in c.extension)
  }

  function Wire(cs: seq<Sent>, end: Bytes): (r: Bytes) {
    if cs == [] then end
    else (cs[0].size + cs[0].extension) + CRLF + (cs[0].data + CRLF + Wire(cs[1..], end))
  }

  function Payload(cs: seq<Sent>): (r: Bytes) {
    if cs == [] then [] else cs[0].data + Payload(cs[1..])
  }

  lemma PlainHead(c: Sent, more: Bytes, at: nat)
    requires Sendable(c) && c.extension == [] && at + |c.size| + |c.data| + |more| + 4 <= USIZE_MAX
    ensures Decode((c.size + c.extension) + CRLF + (c.data + CRLF + more), at) ==
            if more == [] then Decoded(c.data) else Prepend(c.data, Decode(more, at + |c.size| + |c.data| + 4))
  {
    hide ParseSize, Find, Contains, RoundOf;
    assert c.size + c.extension == c.size;
    var s := c.size + CRLF + (c.data + CRLF + more);
    CutOneChunk(Chunk(c.size, c.data), more, |s|, at);
    assert s[..|s|] == s && more[..|more|] == more && c.data[..|c.data|] == c.data;
  }

  /** A body decodes to its data exactly when no chunk of it has an extension, wherever the first one stands. */
  lemma {:induction false} DecodesIffNoExtension(cs: seq<Sent>, end: Bytes, at: nat)
    requires (forall k :: 0 <= k < |cs| ==> Sendable(cs[k])) && at + |Wire(cs, end)| <= USIZE_MAX
    requires forall o :: Decode(end, o) == Decoded([])
    ensures Decode(Wire(cs, end), at) == Decoded(Payload(cs)) <==> forall k :: 0 <= k < |cs| ==> cs[k].extension == []
    decreases |cs|
  {
    hide Decode, Sendable, Prepend;
    if cs != [] {
      var c, more := cs[0], Wire(cs[1..], end);
      assert Sendable(c) && forall k :: 1 <= k < |cs| ==> cs[k] == cs[1..][k - 1];
      DecodesIffNoExtension(cs[1..], end, at + |c.size| + |c.data| + 4);
      if c.extension == [] {
        PlainHead(c, more, at);
        NothingMore(cs[1..], end);
        PrependsIff(c.data, Decode(more, at + |c.size| + |c.data| + 4), Payload(cs[1..]));
        assert more == [] ==> c.data + [] == c.data;
      } else {
        ExtendedHead(c, more, at);
      }
    }
  }

  lemma PrependsIff(part: Bytes, o: Outcome, body: Bytes)
    ensures Prepend(part, o) == Decoded(part + body) <==> o == Decoded(body)
  {
    if o.Decoded? {
      assert (part + o.body)[|part|..] == o.body && (part + body)[|part|..] == body;
    }
  }

  lemma NothingMore(cs: seq<Sent>, end: Bytes)
    ensures Wire(cs, end) == [] ==> cs == [] && Payload(cs) == []
  {
  }

  lemma ExtendedHead(c: Sent, more: Bytes, at: nat)
    requires Sendable(c) && c.extension != []
    ensures Decode((c.size + c.extension) + CRLF + (c.data + CRLF + more), at) == Decoded([]) && c.data != []
  {
    hide ParseSize, Find;
    assert SEMICOLON in c.size + c.extension;
    ExtensionStopsDecoding(c.size + c.extension, c.data + CRLF + more, at);
  }

  /** The wire `1;x`, one byte, `0`: its whole body is lost. */
  lemma ExtensionLosesBody(b: byte)
    ensures var header := ['1' as int as byte, SEMICOLON, 'x' as int as byte];
            Decode(header + CRLF + ([b] + CRLF + (['0' as int as byte] + CRLF + CRLF)), 0) == Decoded([])
  {
    hide Decode;
    var header := ['1' as int as byte, SEMICOLON, 'x' as int as byte];
    assert header[1] == SEMICOLON;
    LacksElement(header, CRLF, CR);
    ExtensionStopsDecoding(header, [b] + CRLF + (['0' as int as byte] + CRLF + CRLF), 0);
  }
}
