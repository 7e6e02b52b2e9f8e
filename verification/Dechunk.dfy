/** Decoding a chunked HTTP body: it undoes every encoding that RFC 9112, section 7.1, allows,
    exactly when the chunk extensions are UTF-8. */
module Dechunk {
  import opened Wrappers
  import opened Bytes
  import opened Hex
  import Seqs
  import Utf8

  const CR: byte := 13
  const LF: byte := 10
  const SEMICOLON: byte := 59
  const PLUS: byte := 43

  /** White_Space of the Unicode character database. */
  predicate Space(c: int) {
    || 9 <= c <= 13 || c == 32 || c == 0x85 || c == 0xA0 || c == 0x1680
    || 0x2000 <= c <= 0x200A || c == 0x2028 || c == 0x2029 || c == 0x202F || c == 0x205F || c == 0x3000
  }

  /** The text before the first semicolon. */
  function FirstToken(s: seq<int>): seq<int> {
    if s == [] || s[0] == SEMICOLON then [] else [s[0]] + FirstToken(s[1..])
  }

  function TrimStart(s: seq<int>): seq<int> {
    if s != [] && Space(s[0]) then TrimStart(s[1..]) else s
  }

  function TrimEnd(s: seq<int>): seq<int> {
    if s != [] && Space(s[|s| - 1]) then TrimEnd(s[..|s| - 1]) else s
  }

  /** The value of hex digits, with the 64-bit overflow check after every digit. */
  function HexValue(s: seq<int>): Option<nat> {
    if s == [] then Some(0)
    else
      match (HexValue(s[..|s| - 1]), DigitValue(s[|s| - 1]))
      case (Some(high), Some(low)) => if high * 16 + low < TWO_64 then Some(high * 16 + low) else None
      case _ => None
  }

  /** A plus sign is accepted; no digit at all is not. */
  function ParseHex(s: seq<int>): Option<nat> {
    var digits := if s != [] && s[0] == PLUS then s[1..] else s;
    if digits == [] then None else HexValue(digits)
  }

  function TextSize(text: seq<int>): Option<nat> {
    ParseHex(TrimEnd(TrimStart(FirstToken(text))))
  }

  function ChunkSize(line: seq<byte>): Option<nat> {
    match Utf8.Decode(line)
    case None => None
    case Some(text) => TextSize(text)
  }

  /** The position of the first CRLF. */
  function FindCrlf(s: seq<byte>): (r: Option<nat>)
    ensures r.Some? ==> r.value + 2 <= |s|
  {
    if |s| < 2 then None
    else if s[0] == CR && s[1] == LF then Some(0)
    else
      match FindCrlf(s[1..])
      case None => None
      case Some(n) => Some(n + 1)
  }

  datatype Step = Malformed | Last | Data(data: seq<byte>, rest: seq<byte>)

  /** One size line and its chunk; the two bytes after the chunk are skipped unread. */
  function Next(body: seq<byte>): (r: Step)
    ensures r.Data? ==> |r.data| + |r.rest| + 4 <= |body|
  {
    match FindCrlf(body)
    case None => Malformed
    case Some(nl) =>
      match ChunkSize(body[..nl])
      case None => Malformed
      case Some(size) =>
        var rest := body[nl + 2..];
        if size == 0 then Last
        else if size + 2 > |rest| then Malformed
        else Data(rest[..size], rest[size + 2..])
  }

  function Decode(body: seq<byte>): Option<seq<byte>>
    decreases |body|
  {
    match Next(body)
    case Malformed => None
    case Last => Some([])
    case Data(data, rest) => Prefixed(data, Decode(rest))
  }

  function Prefixed(out: seq<byte>, more: Option<seq<byte>>): Option<seq<byte>> {
    match more
    case None => None
    case Some(tail) => Some(out + tail)
  }

  lemma PrefixedTwice(out: seq<byte>, chunk: seq<byte>, more: Option<seq<byte>>)
    ensures Prefixed(out, Prefixed(chunk, more)) == Prefixed(out + chunk, more)
    ensures Prefixed([], more) == more && Prefixed(out, Some([])) == Some(out)
  {
    if more.Some? {
      Seqs.Assoc(out, chunk, more.value);
      assert [] + more.value == more.value;
    }
    assert out + [] == out;
  }

  method DechunkBody(input: seq<byte>) returns (r: Option<seq<byte>>)
    ensures r == Decode(input)
  {
    var body := input;
    var out: seq<byte> := [];
    PrefixedTwice([], [], Decode(body));
    while true
      invariant Decode(input) == Prefixed(out, Decode(body))
      decreases |body|
    {
      ghost var step := Next(body);
      var nl := FindCrlf(body);
      if nl.None? {
        return None;
      }
      var size := ChunkSize(body[..nl.value]);
      if size.None? {
        return None;
      }
      var rest := body[nl.value + 2..];
      if size.value == 0 {
        PrefixedTwice(out, [], None);
        return Some(out);
      }
      if size.value > |rest| {
        return None;
      }
      var chunk := rest[..size.value];
      if size.value + 2 > |rest| {
        return None;
      }
      rest := rest[size.value + 2..];
      assert step == Data(chunk, rest);
      PrefixedTwice(out, chunk, Decode(rest));
      out := out + chunk;
      body := rest;
    }
  }

  // ------------------------------------------------------------------ numbers in base sixteen

  /** Text `s` is `n` printed in base sixteen, with any letter cases and leading zeros. */
  ghost predicate Writes(s: seq<int>, n: nat) {
    s != [] && exists upper :: s == Printed(n, upper) && n < Pow16(|upper|)
  }

  lemma {:induction false} PrintedReads(n: nat, upper: seq<bool>)
    requires n < Pow16(|upper|)
    ensures HexValue(Printed(n, upper)) == if n < TWO_64 then Some(n) else None
  {
    if upper != [] {
      var s, last := Printed(n, upper), |upper| - 1;
      assert s[..last] == Printed(n / 16, upper[..last]);
      PrintedReads(n / 16, upper[..last]);
      DigitReads(n % 16, upper[last]);
    }
  }

  lemma {:induction false} DigitsPrinted(s: seq<int>) returns (n: nat, upper: seq<bool>)
    requires forall i :: 0 <= i < |s| ==> DigitValue(s[i]).Some?
    ensures s == Printed(n, upper) && n < Pow16(|upper|)
  {
    if s == [] {
      n, upper := 0, [];
    } else {
      var last := |s| - 1;
      var n', upper' := DigitsPrinted(s[..last]);
      var up := DigitWritten(s[last]);
      n, upper := 16 * n' + DigitValue(s[last]).value, upper' + [up];
      assert upper[..last] == upper' && n / 16 == n' && n % 16 == DigitValue(s[last]).value;
      assert s == s[..last] + [s[last]];
    }
  }

  lemma {:induction false} ReadDigits(s: seq<int>)
    requires HexValue(s).Some?
    ensures forall i :: 0 <= i < |s| ==> DigitValue(s[i]).Some?
  {
    if s != [] {
      ReadDigits(s[..|s| - 1]);
    }
  }

  /** A text reads as a number if and only if it is that number printed and the number fits. */
  lemma HexValueExactly(s: seq<int>, n: nat)
    requires s != []
    ensures HexValue(s) == Some(n) <==> Writes(s, n) && n < TWO_64
  {
    if HexValue(s) == Some(n) {
      ReadDigits(s);
      var m, upper := DigitsPrinted(s);
      PrintedReads(m, upper);
    }
    if Writes(s, n) {
      var upper :| s == Printed(n, upper) && n < Pow16(|upper|);
      PrintedReads(n, upper);
    }
  }

  // ------------------------------------------------------------------ every size line

  predicate Spaces(s: seq<int>) {
    forall i :: 0 <= i < |s| ==> Space(s[i])
  }

  /** Blanks, perhaps a plus sign, the number, blanks, and perhaps a semicolon with anything behind. */
  ghost predicate SpelledAs(text: seq<int>, n: nat, before: seq<int>, sign: seq<int>, digits: seq<int>,
      after: seq<int>, ext: seq<int>) {
    && text == before + (sign + digits) + after + ext
    && Spaces(before) && Spaces(after) && (sign == [] || sign == [PLUS])
    && Writes(digits, n) && n < TWO_64
    && (ext != [] ==> ext[0] == SEMICOLON)
  }

  ghost predicate Spelled(text: seq<int>, n: nat) {
    exists before, sign, digits, after, ext :: SpelledAs(text, n, before, sign, digits, after, ext)
  }

  lemma {:induction false} TokenSplits(s: seq<int>) returns (ext: seq<int>)
    ensures s == FirstToken(s) + ext && SEMICOLON !in FirstToken(s) && (ext != [] ==> ext[0] == SEMICOLON)
  {
    if s == [] || s[0] == SEMICOLON {
      ext := s;
    } else {
      ext := TokenSplits(s[1..]);
      assert s == [s[0]] + s[1..];
      Seqs.Assoc([s[0]], FirstToken(s[1..]), ext);
    }
  }

  lemma {:induction false} StartSplits(s: seq<int>) returns (before: seq<int>)
    ensures s == before + TrimStart(s) && Spaces(before)
    ensures TrimStart(s) != [] ==> !Space(TrimStart(s)[0])
  {
    if s != [] && Space(s[0]) {
      var b := StartSplits(s[1..]);
      before := [s[0]] + b;
      Seqs.Assoc([s[0]], b, TrimStart(s));
    } else {
      before := [];
    }
  }

  lemma {:induction false} EndSplits(s: seq<int>) returns (after: seq<int>)
    ensures s == TrimEnd(s) + after && Spaces(after)
  {
    if s != [] && Space(s[|s| - 1]) {
      var init := s[..|s| - 1];
      var a := EndSplits(init);
      after := a + [s[|s| - 1]];
      Seqs.Assoc(TrimEnd(s), a, [s[|s| - 1]]);
      assert s == init + [s[|s| - 1]];
    } else {
      after := [];
    }
  }

  lemma {:induction false} TrimsSpaces(a: seq<int>, pad: seq<int>)
    requires a != [] && !Space(a[|a| - 1]) && Spaces(pad)
    ensures TrimEnd(a + pad) == a
  {
    if pad == [] {
      assert a + pad == a;
    } else {
      var p := pad[..|pad| - 1];
      assert (a + pad)[..|a + pad| - 1] == a + p;
      TrimsSpaces(a, p);
    }
  }

  lemma {:induction false} TrimsStart(pad: seq<int>, a: seq<int>)
    requires a != [] && !Space(a[0]) && Spaces(pad)
    ensures TrimStart(pad + a) == a
  {
    if pad == [] {
      assert pad + a == a;
    } else {
      assert (pad + a)[1..] == pad[1..] + a;
      TrimsStart(pad[1..], a);
    }
  }

  lemma {:induction false} TokenUpTo(a: seq<int>, b: seq<int>)
    requires SEMICOLON !in a && (b != [] ==> b[0] == SEMICOLON)
    ensures FirstToken(a + b) == a
  {
    if a == [] {
      assert a + b == b;
    } else {
      assert (a + b)[1..] == a[1..] + b;
      TokenUpTo(a[1..], b);
    }
  }

  lemma Trimmed(before: seq<int>, number: seq<int>, after: seq<int>, ext: seq<int>)
    requires Spaces(before) && Spaces(after) && (ext != [] ==> ext[0] == SEMICOLON)
    requires number != [] && !Space(number[0]) && !Space(number[|number| - 1]) && SEMICOLON !in number
    ensures TrimEnd(TrimStart(FirstToken(before + number + after + ext))) == number
  {
    TokenUpTo(before + number + after, ext);
    Seqs.Assoc(before, number, after);
    assert (number + after)[0] == number[0];
    TrimsStart(before, number + after);
    TrimsSpaces(number, after);
  }

  lemma DigitNotSpace(c: int)
    requires DigitValue(c).Some? || c == PLUS
    ensures !Space(c) && c != SEMICOLON && (DigitValue(c).Some? ==> c != PLUS)
  {
  }

  lemma SignedEdges(sign: seq<int>, digits: seq<int>)
    requires (sign == [] || sign == [PLUS]) && digits != []
    requires forall i :: 0 <= i < |digits| ==> DigitValue(digits[i]).Some?
    ensures var s := sign + digits; s != [] && !Space(s[0]) && !Space(s[|s| - 1]) && SEMICOLON !in s
  {
    var s := sign + digits;
    forall i | 0 <= i < |s| ensures !Space(s[i]) && s[i] != SEMICOLON {
      DigitNotSpace(s[i]);
    }
  }

  lemma ReadsSigned(sign: seq<int>, digits: seq<int>, n: nat)
    requires (sign == [] || sign == [PLUS]) && Writes(digits, n) && n < TWO_64
    ensures ParseHex(sign + digits) == Some(n)
    ensures var s := sign + digits; s != [] && !Space(s[0]) && !Space(s[|s| - 1]) && SEMICOLON !in s
  {
    HexValueExactly(digits, n);
    ReadDigits(digits);
    SignedEdges(sign, digits);
    DigitNotSpace(digits[0]);
    if sign == [] {
      assert sign + digits == digits;
    } else {
      assert (sign + digits)[1..] == digits;
    }
  }

  lemma SpelledReads(text: seq<int>, n: nat, before: seq<int>, sign: seq<int>, digits: seq<int>,
      after: seq<int>, ext: seq<int>)
    requires SpelledAs(text, n, before, sign, digits, after, ext)
    ensures TextSize(text) == Some(n)
  {
    ReadsSigned(sign, digits, n);
    Trimmed(before, sign + digits, after, ext);
  }

  lemma SignSplits(number: seq<int>, n: nat) returns (sign: seq<int>, digits: seq<int>)
    requires ParseHex(number) == Some(n)
    ensures number == sign + digits && (sign == [] || sign == [PLUS]) && Writes(digits, n) && n < TWO_64
  {
    sign := if number[0] == PLUS then [PLUS] else [];
    digits := number[|sign|..];
    HexValueExactly(digits, n);
  }

  lemma ReadsSpelled(text: seq<int>, n: nat)
    requires TextSize(text) == Some(n)
    ensures Spelled(text, n)
  {
    var ext := TokenSplits(text);
    var token := FirstToken(text);
    var before := StartSplits(token);
    var after := EndSplits(TrimStart(token));
    var number := TrimEnd(TrimStart(token));
    var sign, digits := SignSplits(number, n);
    Seqs.Assoc(before, number, after);
    assert SpelledAs(text, n, before, sign, digits, after, ext);
  }

  /** A size line is read as `n` if and only if it is UTF-8 that spells `n`. */
  lemma ChunkSizeExactly(line: seq<byte>, n: nat)
    ensures ChunkSize(line) == Some(n) <==> Utf8.WellFormed(line) && Spelled(Utf8.Decode(line).value, n)
  {
    if Utf8.WellFormed(line) {
      var text := Utf8.Decode(line).value;
      if Spelled(text, n) {
        var before, sign, digits, after, ext :| SpelledAs(text, n, before, sign, digits, after, ext);
        SpelledReads(text, n, before, sign, digits, after, ext);
      }
      if ChunkSize(line) == Some(n) {
        ReadsSpelled(text, n);
      }
    }
  }

  // ------------------------------------------------------------------ the encoder

  /** How a length is written: the letter case of each digit, which fixes their number, optional
      blanks, and an extension, empty or a semicolon and anything without CRLF. */
  datatype SizeLine = SizeLine(upper: seq<bool>, pad: seq<byte>, ext: seq<byte>)

  datatype Chunk = Chunk(line: SizeLine, data: seq<byte>)

  function Line(l: SizeLine, n: nat): seq<byte> {
    Printed(n, l.upper) + l.pad + l.ext
  }

  predicate Blank(s: seq<byte>) {
    forall i :: 0 <= i < |s| ==> s[i] == 32 || s[i] == 9
  }

  /** A legal size line for `n`: enough digits, in any letter case, with any leading zeros. */
  predicate Announces(l: SizeLine, n: nat) {
    && l.upper != [] && n < Pow16(|l.upper|) && n < TWO_64
    && Blank(l.pad)
    && (l.ext != [] ==> l.ext[0] == SEMICOLON)
    && FindCrlf(l.ext).None?
  }

  predicate Legal(c: Chunk) {
    c.data != [] && Announces(c.line, |c.data|)
  }

  /** A chunk: its size line, its data and what follows. */
  function Framed(c: Chunk, rest: seq<byte>): seq<byte> {
    Line(c.line, |c.data|) + ([CR, LF] + (c.data + ([CR, LF] + rest)))
  }

  /** Chunks, the closing zero line, and whatever follows it. */
  function Encode(chunks: seq<Chunk>, last: SizeLine, trailer: seq<byte>): seq<byte> {
    if chunks == [] then Line(last, 0) + ([CR, LF] + trailer)
    else Framed(chunks[0], Encode(chunks[1..], last, trailer))
  }

  function Body(chunks: seq<Chunk>): seq<byte> {
    if chunks == [] then [] else chunks[0].data + Body(chunks[1..])
  }

  predicate Utf8Extensions(chunks: seq<Chunk>, last: SizeLine) {
    && (forall i :: 0 <= i < |chunks| ==> Utf8.WellFormed(chunks[i].line.ext))
    && Utf8.WellFormed(last.ext)
  }

  lemma {:induction false} PrintedDigits(n: nat, upper: seq<bool>)
    ensures forall i :: 0 <= i < |upper| ==> DigitValue(Printed(n, upper)[i]).Some?
  {
    if upper != [] {
      PrintedDigits(n / 16, upper[..|upper| - 1]);
      DigitReads(n % 16, upper[|upper| - 1]);
    }
  }

  lemma AnnouncedReads(l: SizeLine, n: nat, tail: seq<int>)
    requires Announces(l, n) && (tail != [] ==> tail[0] == SEMICOLON)
    ensures TextSize(Printed(n, l.upper) + l.pad + tail) == Some(n)
  {
    var size := Printed(n, l.upper);
    assert Writes(size, n);
    ReadsSigned([], size, n);
    assert [] + size == size;
    Trimmed([], size, l.pad, tail);
  }

  /** The size read from a legal line is the one announced, if and only if its extension is
      well-formed UTF-8; otherwise the line is rejected. */
  lemma SizeRead(l: SizeLine, n: nat)
    requires Announces(l, n)
    ensures ChunkSize(Line(l, n)) == if Utf8.WellFormed(l.ext) then Some(n) else None
  {
    AsciiSize(l, n);
    Utf8.DecodeAsciiPrefix(Printed(n, l.upper) + l.pad, l.ext);
    if Utf8.WellFormed(l.ext) {
      ExtensionStart(l.ext);
      AnnouncedReads(l, n, Utf8.Decode(l.ext).value);
    }
  }

  lemma AsciiSize(l: SizeLine, n: nat)
    requires Blank(l.pad)
    ensures Utf8.Ascii(Printed(n, l.upper) + l.pad)
  {
    PrintedDigits(n, l.upper);
  }

  lemma ExtensionStart(ext: seq<byte>)
    requires Utf8.WellFormed(ext) && (ext != [] ==> ext[0] == SEMICOLON)
    ensures var tail := Utf8.Decode(ext).value; tail != [] ==> tail[0] == SEMICOLON
  {
    if ext != [] {
      assert Utf8.HeadLength(ext) == 1;
    }
  }

  /** The first CRLF is the one that ends the line, even where the line ends in CR. */
  lemma {:induction false} CrlfAfter(line: seq<byte>, rest: seq<byte>)
    requires FindCrlf(line).None?
    ensures FindCrlf(line + ([CR, LF] + rest)) == Some(|line|)
  {
    var s := line + ([CR, LF] + rest);
    if line == [] {
      assert s == [CR, LF] + rest;
    } else {
      assert s[1..] == line[1..] + ([CR, LF] + rest);
      if |line| > 1 {
        assert s[1] == line[1];
      } else {
        assert s[1] == CR;
      }
      CrlfAfter(line[1..], rest);
    }
  }

  lemma {:induction false} CrlfFreePrefix(a: seq<byte>, b: seq<byte>)
    requires CR !in a && FindCrlf(b).None?
    ensures FindCrlf(a + b).None?
  {
    if a == [] {
      assert a + b == b;
    } else {
      assert (a + b)[1..] == a[1..] + b;
      CrlfFreePrefix(a[1..], b);
    }
  }

  lemma LineEnds(l: SizeLine, n: nat, rest: seq<byte>)
    requires Announces(l, n)
    ensures FindCrlf(Line(l, n) + ([CR, LF] + rest)) == Some(|Line(l, n)|)
  {
    PrintedDigits(n, l.upper);
    CrlfFreePrefix(Printed(n, l.upper) + l.pad, l.ext);
    CrlfAfter(Line(l, n), rest);
  }

  lemma CutLine(line: seq<byte>, rest: seq<byte>)
    ensures var s := line + ([CR, LF] + rest); s[..|line|] == line && s[|line| + 2..] == rest
  {
  }

  lemma NextChunk(c: Chunk, rest: seq<byte>)
    requires Legal(c)
    ensures Next(Framed(c, rest)) == if Utf8.WellFormed(c.line.ext) then Data(c.data, rest) else Malformed
  {
    var after := c.data + ([CR, LF] + rest);
    LineEnds(c.line, |c.data|, after);
    CutLine(Line(c.line, |c.data|), after);
    SizeRead(c.line, |c.data|);
    CutLine(c.data, rest);
  }

  lemma NextLast(last: SizeLine, trailer: seq<byte>)
    requires Announces(last, 0)
    ensures Next(Line(last, 0) + ([CR, LF] + trailer)) == if Utf8.WellFormed(last.ext) then Last else Malformed
  {
    LineEnds(last, 0, trailer);
    CutLine(Line(last, 0), trailer);
    SizeRead(last, 0);
  }

  lemma DecodeOn(c: Chunk, rest: seq<byte>)
    requires Legal(c)
    ensures Decode(Framed(c, rest)) == if Utf8.WellFormed(c.line.ext) then Prefixed(c.data, Decode(rest)) else None
  {
    NextChunk(c, rest);
  }

  lemma ExtensionsSplit(chunks: seq<Chunk>, last: SizeLine)
    requires chunks != []
    ensures Utf8Extensions(chunks, last) <==>
      Utf8.WellFormed(chunks[0].line.ext) && Utf8Extensions(chunks[1..], last)
  {
  }

  /** Decoding undoes encoding for every split, letter case, leading zeros, blanks, extension and
      trailer, if and only if every extension is well-formed UTF-8; otherwise it fails. */
  lemma {:induction false} DecodeUndoesEncode(chunks: seq<Chunk>, last: SizeLine, trailer: seq<byte>)
    requires (forall i :: 0 <= i < |chunks| ==> Legal(chunks[i])) && Announces(last, 0)
    ensures Decode(Encode(chunks, last, trailer)) == if Utf8Extensions(chunks, last) then Some(Body(chunks)) else None
  {
    if chunks == [] {
      NextLast(last, trailer);
    } else {
      DecodeUndoesEncode(chunks[1..], last, trailer);
      DecodeOn(chunks[0], Encode(chunks[1..], last, trailer));
      ExtensionsSplit(chunks, last);
    }
  }

  lemma {:induction false} CrlfCut(s: seq<byte>, k: nat)
    requires FindCrlf(s).Some? && k < FindCrlf(s).value + 2
    ensures FindCrlf(s[..k]).None?
  {
    if FindCrlf(s).value > 0 && k > 1 {
      CrlfCut(s[1..], k - 1);
      assert s[..k][1..] == s[1..][..k - 1];
    }
  }

  lemma FramedCut(c: Chunk, rest: seq<byte>, k: nat)
    requires |Line(c.line, |c.data|)| + 2 <= k <= |Framed(c, rest)|
    ensures var line := Line(c.line, |c.data|);
      Framed(c, rest)[..k] == line + ([CR, LF] + (c.data + ([CR, LF] + rest))[..k - |line| - 2])
  {
  }

  lemma DataCut(data: seq<byte>, rest: seq<byte>, k: nat)
    requires |data| + 2 <= k <= |data| + 2 + |rest|
    ensures (data + ([CR, LF] + rest))[..k] == data + ([CR, LF] + rest[..k - |data| - 2])
  {
  }

  lemma NextShort(c: Chunk, after: seq<byte>)
    requires Legal(c) && |after| < |c.data| + 2
    ensures Next(Line(c.line, |c.data|) + ([CR, LF] + after)) == Malformed
  {
    LineEnds(c.line, |c.data|, after);
    CutLine(Line(c.line, |c.data|), after);
    SizeRead(c.line, |c.data|);
  }

  lemma NextCutEarly(c: Chunk, rest: seq<byte>, k: nat)
    requires Legal(c) && k < |Line(c.line, |c.data|)| + 2
    ensures Next(Framed(c, rest)[..k]) == Malformed
  {
    LineEnds(c.line, |c.data|, c.data + ([CR, LF] + rest));
    CrlfCut(Framed(c, rest), k);
  }

  lemma NextCutLate(c: Chunk, rest: seq<byte>, k: nat)
    requires Legal(c) && |Framed(c, [])| <= k <= |Framed(c, rest)|
    ensures Framed(c, rest)[..k] == Framed(c, rest[..k - |Framed(c, [])|])
  {
    FramedCut(c, rest, k);
    DataCut(c.data, rest, k - |Line(c.line, |c.data|)| - 2);
  }

  /** Cut inside its size line, its data or their line ends, a chunk is malformed; cut later it is read. */
  lemma NextCut(c: Chunk, rest: seq<byte>, k: nat)
    requires Legal(c) && k <= |Framed(c, rest)|
    ensures Next(Framed(c, rest)[..k]) ==
      if Utf8.WellFormed(c.line.ext) && |Framed(c, [])| <= k then Data(c.data, rest[..k - |Framed(c, [])|])
      else Malformed
  {
    var n := |Line(c.line, |c.data|)| + 2;
    if k < n {
      NextCutEarly(c, rest, k);
    } else if k < |Framed(c, [])| {
      FramedCut(c, rest, k);
      NextShort(c, (c.data + ([CR, LF] + rest))[..k - n]);
    } else {
      NextCutLate(c, rest, k);
      NextChunk(c, rest[..k - |Framed(c, [])|]);
    }
  }

  /** A body cut before the end of its closing line is rejected, wherever it is cut. */
  lemma {:induction false} TruncationRejected(chunks: seq<Chunk>, last: SizeLine, trailer: seq<byte>, k: nat)
    requires (forall i :: 0 <= i < |chunks| ==> Legal(chunks[i])) && Announces(last, 0)
    requires k + |trailer| < |Encode(chunks, last, trailer)|
    ensures Decode(Encode(chunks, last, trailer)[..k]) == None
    decreases |chunks|
  {
    if chunks == [] {
      LineEnds(last, 0, trailer);
      CrlfCut(Encode(chunks, last, trailer), k);
    } else {
      var rest, head := Encode(chunks[1..], last, trailer), |Framed(chunks[0], [])|;
      NextCut(chunks[0], rest, k);
      if head <= k {
        TruncationRejected(chunks[1..], last, trailer, k - head);
      }
    }
  }

  lemma EmptyLine()
    ensures ChunkSize([]) == None
  {
    assert Utf8.Decode([]) == Some([]);
  }

  lemma NoEmptySizeLine(body: seq<byte>)
    requires Next(body) == Last
    ensures |body| >= 3
  {
    assert body[..0] == [];
    EmptyLine();
  }

  /** A decoded body is shorter than its input by at least the closing line. */
  lemma {:induction false} DecodeShrinks(body: seq<byte>)
    requires Decode(body).Some?
    ensures |Decode(body).value| + 3 <= |body|
    decreases |body|
  {
    if Next(body) == Last {
      NoEmptySizeLine(body);
    } else {
      DecodeShrinks(Next(body).rest);
    }
  }
}
