/** Git's C-style quoting of paths (`core.quotePath`) and the decoder that undoes it. */
module GitQuoting {
  import opened Results
  import opened Utf8

  predicate IsOctalDigit(c: char) {
    '0' <= c <= '7'
  }

  /** The named escapes. */
  function NamedEscape(c: char): Option<Byte> {
    match c
    case 'a' => Some(0x07)
    case 'b' => Some(0x08)
    case 't' => Some(0x09)
    case 'n' => Some(0x0A)
    case 'v' => Some(0x0B)
    case 'f' => Some(0x0C)
    case 'r' => Some(0x0D)
    case '"' => Some(0x22)
    case '\\' => Some(0x5C)
    case _ => None
  }

  function OctalValue(digits: string): (v: nat)
    requires forall k :: 0 <= k < |digits| ==> IsOctalDigit(digits[k])
  {
    if digits == "" then 0
    else
      assert IsOctalDigit(digits[|digits| - 1]);
      OctalValue(digits[..|digits| - 1]) * 8 + (digits[|digits| - 1] as int - '0' as int)
  }

  // ----- quotations

  /** What a quoted path consists of: a raw character, a named escape, or one to three octal digits. */
  datatype Piece = Raw(c: char) | Named(c: char) | Octal(digits: string)

  ghost predicate IsPiece(p: Piece) {
    match p
    case Raw(c) => c != '\\'
    case Named(c) => NamedEscape(c).Some?
    case Octal(digits) =>
      && 1 <= |digits| <= 3
      && (forall k :: 0 <= k < |digits| ==> IsOctalDigit(digits[k]))
      && OctalValue(digits) <= 0xFF
  }

  ghost function Written(p: Piece): string {
    match p
    case Raw(c) => [c]
    case Named(c) => ['\\', c]
    case Octal(digits) => ['\\'] + digits
  }

  ghost function BytesOf(p: Piece): seq<Byte>
    requires IsPiece(p)
  {
    match p
    case Raw(c) => EncodeChar(c)
    case Named(c) => [NamedEscape(c).value]
    case Octal(digits) => [OctalValue(digits)]
  }

  ghost function WrittenAll(pieces: seq<Piece>): string {
    if pieces == [] then "" else Written(pieces[0]) + WrittenAll(pieces[1..])
  }

  ghost predicate StartsWithOctal(s: string) {
    s != "" && IsOctalDigit(s[0])
  }

  /** Pieces that can be told apart: a short octal escape is not followed by an octal digit. */
  ghost predicate ArePieces(pieces: seq<Piece>) {
    pieces == [] ||
    (IsPiece(pieces[0])
     && (pieces[0].Octal? && |pieces[0].digits| < 3 ==> !StartsWithOctal(WrittenAll(pieces[1..])))
     && ArePieces(pieces[1..]))
  }

  ghost function AllBytes(pieces: seq<Piece>): seq<Byte>
    requires ArePieces(pieces)
  {
    if pieces == [] then [] else BytesOf(pieces[0]) + AllBytes(pieces[1..])
  }

  // ----- what the decoder computes

  /** The end of the octal digits from `end` on, at most up to `limit`. */
  function OctalEnd(content: string, end: nat, limit: nat): (e: nat)
    requires end <= limit <= |content|
    ensures end <= e <= limit
    ensures forall k :: end <= k < e ==> IsOctalDigit(content[k])
    ensures e < limit ==> !IsOctalDigit(content[e])
    decreases limit - end
  {
    if end < limit && IsOctalDigit(content[end]) then OctalEnd(content, end + 1, limit) else end
  }

  function Min(a: nat, b: nat): nat {
    if a < b then a else b
  }

  /** The first piece of the content and its length, or `None` where the decoder raises. */
  ghost function FirstPiece(content: string): (p: Option<Piece>)
    requires content != ""
    ensures p.Some? ==> IsPiece(p.value) && Written(p.value) <= content
  {
    if content[0] != '\\' then Some(Raw(content[0]))
    else if |content| == 1 then None
    else if NamedEscape(content[1]).Some? then
      assert content[..2] == ['\\', content[1]];
      Some(Named(content[1]))
    else if IsOctalDigit(content[1]) then
      var digits := content[1..OctalEnd(content, 2, Min(4, |content|))];
      assert content[..|digits| + 1] == ['\\'] + digits;
      if OctalValue(digits) > 0xFF then None else Some(Octal(digits))
    else None
  }

  ghost function Unescape(content: string): Result<seq<Byte>>
    decreases |content|
  {
    if content == "" then Ok([])
    else
      var first := FirstPiece(content);
      if first.None? then Err(InvalidQuoting)
      else
        var rest := Unescape(content[|Written(first.value)|..]);
        if rest.Err? then rest else Ok(BytesOf(first.value) + rest.value)
  }

  predicate StartsQuoted(value: string) {
    value != "" && value[0] == '"'
  }

  predicate EndsQuoted(value: string) {
    value != "" && value[|value| - 1] == '"'
  }

  ghost function DecodedPath(value: string): Result<string> {
    if !StartsQuoted(value) && !EndsQuoted(value) then Ok(value)
    else if |value| < 2 || !StartsQuoted(value) || !EndsQuoted(value) then Err(InvalidQuoting)
    else
      var bytes := Unescape(value[1..|value| - 1]);
      if bytes.Err? then Err(bytes.error)
      else
        var path := Decode(bytes.value);
        if path.None? then Err(NotUtf8) else Ok(path.value)
  }

  // ----- the decoder

  ghost function Prepended(decoded: seq<Byte>, rest: Result<seq<Byte>>): Result<seq<Byte>> {
    if rest.Err? then rest else Ok(decoded + rest.value)
  }

  lemma PrependedNothing(decoded: seq<Byte>, rest: Result<seq<Byte>>)
    ensures Prepended([], rest) == rest
    ensures Prepended(decoded, Ok([])) == Ok(decoded)
  {
    if rest.Ok? {
      assert [] + rest.value == rest.value;
    }
    assert decoded + [] == decoded;
  }

  lemma PrependedTwice(decoded: seq<Byte>, more: seq<Byte>, rest: Result<seq<Byte>>)
    ensures Prepended(decoded, Prepended(more, rest)) == Prepended(decoded + more, rest)
  {
    if rest.Ok? {
      assert decoded + (more + rest.value) == decoded + more + rest.value;
    }
  }

  /** Reading one piece. */
  lemma UnescapeStep(content: string, position: nat, p: Piece)
    requires position < |content| && FirstPiece(content[position..]) == Some(p)
    ensures position + |Written(p)| <= |content|
    ensures Unescape(content[position..]) == Prepended(BytesOf(p), Unescape(content[position + |Written(p)|..]))
  {
    assert content[position..][|Written(p)|..] == content[position + |Written(p)|..];
  }

  lemma RawStep(content: string, position: nat)
    requires position < |content| && content[position] != '\\'
    ensures Unescape(content[position..]) == Prepended(EncodeChar(content[position]), Unescape(content[position + 1..]))
  {
    UnescapeStep(content, position, Raw(content[position]));
  }

  lemma OctalEndShifts(content: string, position: nat, end: nat, limit: nat)
    requires position <= end <= limit <= |content|
    ensures OctalEnd(content[position..], end - position, limit - position) == OctalEnd(content, end, limit) - position
    decreases limit - end
  {
    if end < limit && IsOctalDigit(content[end]) {
      OctalEndShifts(content, position, end + 1, limit);
    }
  }

  /** The digits of an octal escape whose first digit is at `start`. */
  method ScanOctal(content: string, start: nat) returns (end: nat)
    requires start < |content| && IsOctalDigit(content[start])
    ensures end == OctalEnd(content, start + 1, Min(start + 3, |content|))
  {
    end := start + 1;
    while end < Min(start + 3, |content|) && IsOctalDigit(content[end])
      invariant start < end <= Min(start + 3, |content|)
      invariant OctalEnd(content, start + 1, Min(start + 3, |content|)) ==
                OctalEnd(content, end, Min(start + 3, |content|))
    {
      end := end + 1;
    }
  }

  lemma OctalFirst(tail: string, end: nat)
    requires |tail| > 1 && tail[0] == '\\' && IsOctalDigit(tail[1])
    requires end == OctalEnd(tail, 2, Min(4, |tail|))
    ensures 1 < end <= |tail| && forall k :: 1 <= k < end ==> IsOctalDigit(tail[k])
    ensures FirstPiece(tail) == if OctalValue(tail[1..end]) > 0xFF then None else Some(Octal(tail[1..end]))
  {
  }

  lemma OctalPiece(content: string, position: nat, end: nat)
    requires position + 1 < |content| && content[position] == '\\' && IsOctalDigit(content[position + 1])
    requires end == OctalEnd(content, position + 2, Min(position + 4, |content|))
    ensures position + 1 < end <= |content| && forall k :: position + 1 <= k < end ==> IsOctalDigit(content[k])
    ensures FirstPiece(content[position..]) ==
            if OctalValue(content[position + 1..end]) > 0xFF then None else Some(Octal(content[position + 1..end]))
  {
    var tail := content[position..];
    OctalEndShifts(content, position, position + 2, Min(position + 4, |content|));
    OctalFirst(tail, end - position);
    assert tail[1..end - position] == content[position + 1..end];
  }

  /** One escape: its byte, the position behind it, and the piece it is. */
  method ScanEscape(content: string, position: nat) returns (octet: Result<Byte>, next: nat, ghost piece: Piece)
    requires position < |content| && content[position] == '\\'
    ensures octet.Err? ==> octet.error == InvalidQuoting && FirstPiece(content[position..]).None?
    ensures octet.Ok? ==> FirstPiece(content[position..]) == Some(piece) && BytesOf(piece) == [octet.value]
    ensures octet.Ok? ==> position < next == position + |Written(piece)| <= |content|
  {
    next := position + 1;
    piece := Raw(content[position]);
    if next >= |content| { return Err(InvalidQuoting), next, piece; }
    var escape := content[next];
    if NamedEscape(escape).Some? {
      return Ok(NamedEscape(escape).value), next + 1, Named(escape);
    }
    if IsOctalDigit(escape) {
      var end := ScanOctal(content, next);
      OctalPiece(content, position, end);
      var value := OctalValue(content[next..end]);
      if value > 0xFF { return Err(InvalidQuoting), next, piece; }
      return Ok(value), end, Octal(content[next..end]);
    }
    return Err(InvalidQuoting), next, piece;
  }

  /** Reading one escape leaves the rest of the content to be read. */
  method ReadEscape(content: string, position: nat) returns (octet: Result<Byte>, next: nat)
    requires position < |content| && content[position] == '\\'
    ensures octet.Err? ==> Unescape(content[position..]) == Err(octet.error)
    ensures octet.Ok? ==> position < next <= |content|
    ensures octet.Ok? ==> Unescape(content[position..]) == Prepended([octet.value], Unescape(content[next..]))
  {
    ghost var piece;
    octet, next, piece := ScanEscape(content, position);
    if octet.Err? {
      FailedStep(content, position);
    } else {
      UnescapeStep(content, position, piece);
    }
  }

  lemma FailedStep(content: string, position: nat)
    requires position < |content| && FirstPiece(content[position..]).None?
    ensures Unescape(content[position..]) == Err(InvalidQuoting)
  {
  }

  /** The loop over the quoted content: it always advances, and every value put into the buffer is a byte. */
  method UnescapeContent(content: string) returns (bytes: Result<seq<Byte>>)
    ensures bytes == Unescape(content)
  {
    var decoded: seq<Byte> := [];
    var position := 0;
    assert content[0..] == content;
    PrependedNothing([], Unescape(content));
    while position < |content|
      invariant position <= |content|
      invariant Unescape(content) == Prepended(decoded, Unescape(content[position..]))
    {
      if content[position] != '\\' {
        RawStep(content, position);
        PrependedTwice(decoded, EncodeChar(content[position]), Unescape(content[position + 1..]));
        decoded := decoded + EncodeChar(content[position]);
        position := position + 1;
      } else {
        var octet, next := ReadEscape(content, position);
        if octet.Err? { return Err(octet.error); }
        PrependedTwice(decoded, [octet.value], Unescape(content[next..]));
        decoded := decoded + [octet.value];
        position := next;
      }
    }
    PrependedNothing(decoded, Ok([]));
    return Ok(decoded);
  }

  method DecodeGitQuotedPath(value: string) returns (path: Result<string>)
    ensures path == DecodedPath(value)
  {
    if !StartsQuoted(value) && !EndsQuoted(value) { return Ok(value); }
    if |value| < 2 || !StartsQuoted(value) || !EndsQuoted(value) { return Err(InvalidQuoting); }
    var bytes := UnescapeContent(value[1..|value| - 1]);
    if bytes.Err? { return Err(bytes.error); }
    var text := Decode(bytes.value);
    return if text.None? then Err(NotUtf8) else Ok(text.value);
  }

  // ----- decoding undoes quoting

  /** A digit sequence followed by something else ends where the scan stops. */
  lemma OctalScanStops(content: string, end: nat, limit: nat, stop: nat)
    requires end <= stop <= limit <= |content|
    requires forall k :: end <= k < stop ==> IsOctalDigit(content[k])
    requires stop < limit ==> !IsOctalDigit(content[stop])
    ensures OctalEnd(content, end, limit) == stop
    decreases stop - end
  {
  }

  lemma FirstPieceIsFound(p: Piece, rest: string)
    requires IsPiece(p) && (p.Octal? && |p.digits| < 3 ==> !StartsWithOctal(rest))
    ensures FirstPiece(Written(p) + rest) == Some(p)
  {
    var content := Written(p) + rest;
    if p.Octal? {
      var n := |p.digits|;
      assert forall k :: 1 <= k < n + 1 ==> content[k] == p.digits[k - 1];
      assert n + 1 < |content| ==> content[n + 1] == rest[0];
      OctalScanStops(content, 2, Min(4, |content|), n + 1);
      assert content[1..n + 1] == p.digits;
      assert NamedEscape(content[1]).None?;
    }
  }

  lemma {:induction false} UnescapeOfWritten(pieces: seq<Piece>)
    requires ArePieces(pieces)
    ensures Unescape(WrittenAll(pieces)) == Ok(AllBytes(pieces))
    decreases |pieces|
  {
    if pieces != [] {
      var rest := WrittenAll(pieces[1..]);
      FirstPieceIsFound(pieces[0], rest);
      UnescapeOfWritten(pieces[1..]);
      assert (Written(pieces[0]) + rest)[|Written(pieces[0])|..] == rest;
    }
  }

  lemma FirstPieceIsGreedy(content: string)
    requires content != "" && FirstPiece(content).Some?
    ensures var p := FirstPiece(content).value;
      p.Octal? && |p.digits| < 3 ==> !StartsWithOctal(content[|Written(p)|..])
  {
  }

  lemma UnescapeReadsPiece(content: string) returns (p: Piece, tail: string)
    requires content != "" && Unescape(content).Ok?
    ensures IsPiece(p) && content == Written(p) + tail
    ensures p.Octal? && |p.digits| < 3 ==> !StartsWithOctal(tail)
    ensures Unescape(tail).Ok? && Unescape(content) == Ok(BytesOf(p) + Unescape(tail).value)
  {
    p := FirstPiece(content).value;
    tail := content[|Written(p)|..];
    FirstPieceIsGreedy(content);
  }

  lemma {:induction false} WrittenOfUnescape(content: string) returns (pieces: seq<Piece>)
    requires Unescape(content).Ok?
    ensures ArePieces(pieces) && WrittenAll(pieces) == content && Ok(AllBytes(pieces)) == Unescape(content)
    decreases |content|
  {
    if content == "" {
      pieces := [];
    } else {
      var p, tail := UnescapeReadsPiece(content);
      var rest := WrittenOfUnescape(tail);
      pieces := [p] + rest;
      PiecesCons(p, rest);
    }
  }

  lemma PiecesCons(p: Piece, rest: seq<Piece>)
    requires IsPiece(p) && ArePieces(rest)
    requires p.Octal? && |p.digits| < 3 ==> !StartsWithOctal(WrittenAll(rest))
    ensures ArePieces([p] + rest)
    ensures WrittenAll([p] + rest) == Written(p) + WrittenAll(rest)
    ensures AllBytes([p] + rest) == BytesOf(p) + AllBytes(rest)
  {
    assert ([p] + rest)[1..] == rest;
  }

  /** The quoted form of the pieces. */
  ghost function Quoted(pieces: seq<Piece>): string {
    ['"'] + WrittenAll(pieces) + ['"']
  }

  ghost predicate Quotes(value: string, path: string) {
    exists pieces :: IsQuotation(pieces, value, path)
  }

  ghost predicate IsQuotation(pieces: seq<Piece>, value: string, path: string) {
    ArePieces(pieces) && value == Quoted(pieces) && AllBytes(pieces) == Encode(path)
  }

  /** Whatever mixture of raw characters, named escapes and octal escapes spells the path's UTF-8
      bytes, the decoder returns the path. */
  lemma DecodingUndoesQuoting(pieces: seq<Piece>, path: string)
    requires ArePieces(pieces) && AllBytes(pieces) == Encode(path)
    ensures DecodedPath(Quoted(pieces)) == Ok(path)
  {
    var value := Quoted(pieces);
    assert value[1..|value| - 1] == WrittenAll(pieces);
    UnescapeOfWritten(pieces);
    DecodeInvertsEncode(Encode(path), path);
  }

  /** The decoder returns a path exactly for the path itself, when no quote marks its ends, and for
      the quotations of the path. */
  lemma DecodingIsExact(value: string, path: string)
    ensures DecodedPath(value) == Ok(path) <==>
      (!StartsQuoted(value) && !EndsQuoted(value) && value == path) || Quotes(value, path)
  {
    if Quotes(value, path) {
      var pieces :| IsQuotation(pieces, value, path);
      DecodingUndoesQuoting(pieces, path);
    }
    if DecodedPath(value) == Ok(path) && (StartsQuoted(value) || EndsQuoted(value)) {
      OnlyQuotationsDecode(value, path);
    }
  }

  lemma OnlyQuotationsDecode(value: string, path: string)
    requires DecodedPath(value) == Ok(path) && (StartsQuoted(value) || EndsQuoted(value))
    ensures Quotes(value, path)
  {
    var content := value[1..|value| - 1];
    var pieces := WrittenOfUnescape(content);
    EncodingOfDecoded(AllBytes(pieces), path);
    QuotedAgain(value);
    assert IsQuotation(pieces, value, path);
  }

  lemma EncodingOfDecoded(bytes: seq<Byte>, path: string)
    requires Decode(bytes) == Some(path)
    ensures bytes == Encode(path)
  {
    DecodeInvertsEncode(bytes, path);
  }

  lemma QuotedAgain(value: string)
    requires |value| >= 2 && StartsQuoted(value) && EndsQuoted(value)
    ensures value == ['"'] + value[1..|value| - 1] + ['"']
  {
  }

  /** Three octal digits for a byte. */
  function ThreeDigits(b: Byte): string {
    [('0' as int + b / 64) as char, ('0' as int + b / 8 % 8) as char, ('0' as int + b % 8) as char]
  }

  lemma ThreeDigitsSpell(b: Byte)
    ensures IsPiece(Octal(ThreeDigits(b))) && BytesOf(Octal(ThreeDigits(b))) == [b]
  {
    var d := ThreeDigits(b);
    assert d[..2][..1][..0] == "" && d[..2][1] == d[1] && d[..2][..1][0] == d[0];
    assert OctalValue(d[..2][..1]) == b / 64;
    assert OctalValue(d[..2]) == b / 64 * 8 + b / 8 % 8;
    assert b / 8 / 8 == b / 64;
  }

  /** Every path has a quotation: all its bytes as octal escapes. */
  lemma {:induction false} EveryByteStringIsQuoted(bytes: seq<Byte>) returns (pieces: seq<Piece>)
    ensures ArePieces(pieces) && AllBytes(pieces) == bytes
    decreases |bytes|
  {
    if bytes == [] {
      pieces := [];
    } else {
      var rest := EveryByteStringIsQuoted(bytes[1..]);
      ThreeDigitsSpell(bytes[0]);
      pieces := [Octal(ThreeDigits(bytes[0]))] + rest;
      PiecesCons(Octal(ThreeDigits(bytes[0])), rest);
    }
  }

  // ----- the escapes, spelled out

  /** `\a` to `\r` stand for the bytes 7 to 13 in the order of C's escapes; a quote and a backslash stand
      for themselves. */
  lemma NamedEscapesAreThese(c: char, b: Byte)
    ensures NamedEscape(c) == Some(b) <==>
      (exists k :: 0 <= k < 7 && c == "abtnvfr"[k] && b == 7 + k) || ((c == '"' || c == '\\') && b == c as int)
  {
    var s := "abtnvfr";
    assert s[0] == 'a' && s[1] == 'b' && s[2] == 't' && s[3] == 'n' && s[4] == 'v' && s[5] == 'f' && s[6] == 'r';
  }

  lemma OctalDigitsAreThese(c: char)
    ensures IsOctalDigit(c) <==> c in "01234567"
  {
    var s := "01234567";
    assert s[0] == '0' && s[1] == '1' && s[2] == '2' && s[3] == '3';
    assert s[4] == '4' && s[5] == '5' && s[6] == '6' && s[7] == '7';
  }

  lemma OctalDigitAt(x: nat)
    requires x < 8
    ensures "01234567"[x] == ('0' as int + x) as char
  {
  }

  /** Octal digits are read by place: one, two or three of them. */
  lemma OctalIsByPlace(a: char, b: char, c: char, x: nat, y: nat, z: nat)
    requires x < 8 && y < 8 && z < 8 && a == "01234567"[x] && b == "01234567"[y] && c == "01234567"[z]
    ensures IsOctalDigit(a) && IsOctalDigit(b) && IsOctalDigit(c)
    ensures OctalValue([c]) == z && OctalValue([b, c]) == 8 * y + z && OctalValue([a, b, c]) == 64 * x + 8 * y + z
  {
    OctalDigitAt(x);
    OctalDigitAt(y);
    OctalDigitAt(z);
    OneOctal(a);
    OneOctal(b);
    OneOctal(c);
    OctalOfMore([b], c);
    OctalOfMore([a], b);
    OctalOfMore([a, b], c);
    assert [b] + [c] == [b, c] && [a] + [b] == [a, b] && [a, b] + [c] == [a, b, c];
  }

  lemma OneOctal(c: char)
    requires IsOctalDigit(c)
    ensures OctalValue([c]) == c as int - '0' as int
  {
    OctalOfMore([], c);
    assert [] + [c] == [c];
  }

  lemma OctalOfMore(digits: string, c: char)
    requires (forall k :: 0 <= k < |digits| ==> IsOctalDigit(digits[k])) && IsOctalDigit(c)
    ensures OctalValue(digits + [c]) == OctalValue(digits) * 8 + (c as int - '0' as int)
  {
    assert (digits + [c])[..|digits|] == digits;
  }
}
