/**
  The string layer of src/json_util.rs: the parser's error type,
  `write_escaped_str`, and `unescape` with its `parse_hex4` helper. Escapes
  follow section 7 of RFC 8259, including UTF-16 surrogate pairs.
 */
module JsonEscape {
  import opened Outcomes
  import opened Numerals

  /**
    `ParseError`. The diagnostic text that `InvalidUnicodeEscape` carries in
    the source is not modelled.
   */
  datatype ParseError =
    | UnexpectedEof
    | UnexpectedCharacter(found: char)
    | ExpectedCharacter(expected: char)
    | ExpectedValue
    | ExpectedComma
    | ExpectedColon
    | InvalidEscapeSequence(sequence: string)
    | InvalidUnicodeEscape
    | InvalidNumber(lexeme: string)
    | TrailingCharacters(trailing: string)
    | Message(msg: string)

  /** U+0000 to U+001F, which JSON text may not hold raw inside a string. */
  predicate IsControl(c: char)
  {
    c as int < 0x20
  }

  /** The characters that `write_escaped_str` writes as an escape sequence. */
  predicate NeedsEscape(c: char)
  {
    c == '"' || c == '\\' || c == '/' || IsControl(c)
  }

  /** A string with no raw control character. */
  predicate NoControl(s: string)
  {
    forall i :: 0 <= i < |s| ==> !IsControl(s[i])
  }

  /** The lower-case hexadecimal digit of a value below 16 (`{:x}`). */
  function LowerHexDigit(v: nat): (c: char)
    requires v < 16
    ensures IsHexDigit(c) && HexValue(c) == v
    ensures !IsControl(c) && c != '\\' && c != '"'
  {
    if v < 10 then (48 + v) as char else (87 + v) as char
  }

  /** `\u{:04x}` of a control character: always `\u00` and two more digits. */
  function ControlEscape(c: char): (r: string)
    requires IsControl(c)
    ensures |r| == 6 && r[..2] == "\\u" && AllHex(r[2..])
    ensures HexDigitsValue(r[2..]) == c as int
  {
    var r := "\\u00" + [LowerHexDigit(c as int / 16), LowerHexDigit(c as int % 16)];
    HexDigitsValue4(r[2..]);
    r
  }

  /** The text `write_escaped_str` writes for one character. */
  function EscapeChar(c: char): (r: string)
    ensures |r| >= 1
    ensures NeedsEscape(c) <==> r[0] == '\\'
    ensures !NeedsEscape(c) ==> r == [c]
    ensures NoControl(r)
  {
    if c == '"' then "\\\""
    else if c == '\\' then "\\\\"
    else if c == '/' then "\\/"
    else if c as int == 0x08 then "\\b"
    else if c as int == 0x0C then "\\f"
    else if c == '\n' then "\\n"
    else if c == '\r' then "\\r"
    else if c == '\t' then "\\t"
    else if IsControl(c) then ControlEscape(c)
    else [c]
  }

  /** `write_escaped_str`: every character replaced by its escape text, in order. */
  function Escape(s: string): (r: string)
    ensures NoControl(r)
    ensures |r| >= |s|
    ensures |s| > 0 ==> r == EscapeChar(s[0]) + Escape(s[1..])
  {
    if |s| == 0 then "" else EscapeChar(s[0]) + Escape(s[1..])
  }

  /** The character a one-letter escape stands for, if the letter is one. */
  function SimpleEscape(e: char): (r: Option<char>)
    ensures r.Some? <==> e in "\"\\/bfnrt"
  {
    if e == '"' then Some('"')
    else if e == '\\' then Some('\\')
    else if e == '/' then Some('/')
    else if e == 'b' then Some(0x08 as char)
    else if e == 'f' then Some(0x0C as char)
    else if e == 'n' then Some('\n')
    else if e == 'r' then Some('\r')
    else if e == 't' then Some('\t')
    else None
  }

  /**
    The four hex digits after `\u`. `parse_hex4` (strict) demands four ASCII
    hex digits; the slice reader of `parse_string_content` (loose) only
    demands four characters and hands them to `u32::from_str_radix`, which
    also takes a leading `+`.
   */
  function ReadHex4(s: string, strict: bool): (r: Result<(nat, string), ParseError>)
    ensures r.Ok? ==> |s| >= 4 && r.value.0 < 0x10000 && r.value.1 == s[4..]
    ensures r.Err? ==> r.error == InvalidUnicodeEscape
    ensures strict ==> (r.Ok? <==> |s| >= 4 && AllHex(s[..4]))
    ensures |s| >= 4 && AllHex(s[..4]) ==> r == Ok((HexDigitsValue(s[..4]), s[4..]))
  {
    if |s| < 4 then Err(InvalidUnicodeEscape)
    else if strict then
      if AllHex(s[..4]) then Ok((HexDigitsValue(s[..4]), s[4..])) else Err(InvalidUnicodeEscape)
    else
      match FromStrRadix16(s[..4])
      case Some(v) =>
        assert v == HexDigitsValue(s[1..4]) || v == HexDigitsValue(s[..4]);
        Ok((v, s[4..]))
      case None => Err(InvalidUnicodeEscape)
  }

  /** Whether a code point is a Unicode scalar value (`char::from_u32` succeeds). */
  predicate IsScalar(n: nat)
  {
    n < 0xD800 || (0xE000 <= n < 0x11_0000)
  }

  /** The code point of a UTF-16 surrogate pair. */
  function CombineSurrogates(hi: nat, lo: nat): (n: nat)
    requires 0xD800 <= hi <= 0xDBFF && 0xDC00 <= lo <= 0xDFFF
    ensures 0x1_0000 <= n < 0x11_0000 && IsScalar(n)
  {
    (hi - 0xD800) * 0x400 + (lo - 0xDC00) + 0x1_0000
  }

  /**
    The character a `\u` escape stands for, given the text after the `u`, and
    the text after the escape. A high surrogate must be followed directly by
    `\u` and a low surrogate; a lone low surrogate is no character.
   */
  function UnicodeEscape(s: string, strict: bool): (r: Result<(char, string), ParseError>)
    ensures r.Ok? ==> |r.value.1| <= |s| - 4
    ensures r.Err? ==> r.error == InvalidUnicodeEscape
  {
    match ReadHex4(s, strict)
    case Err(e) => Err(e)
    case Ok((hi, rest)) =>
      if 0xD800 <= hi <= 0xDBFF then
        if |rest| >= 2 && rest[0] == '\\' && rest[1] == 'u' then
          match ReadHex4(rest[2..], strict)
          case Err(e) => Err(e)
          case Ok((lo, rest2)) =>
            if 0xDC00 <= lo <= 0xDFFF then Ok((CombineSurrogates(hi, lo) as char, rest2))
            else Err(InvalidUnicodeEscape)
        else Err(InvalidUnicodeEscape)
      else if IsScalar(hi) then Ok((hi as char, rest))
      else Err(InvalidUnicodeEscape)
  }

  /** Puts `p` in front of a successful result; an error passes through. */
  function Prepend(p: string, r: Result<string, ParseError>): Result<string, ParseError>
  {
    if r.Ok? then Ok(p + r.value) else r
  }

  /**
    `unescape`: the content of a JSON string without its quotes, decoded
    left to right. The first problem met is the error returned.
   */
  function Unescape(s: string): (r: Result<string, ParseError>)
    ensures r.Ok? ==> |r.value| <= |s|
    ensures r.Err? ==> r.error.UnexpectedEof? || r.error.UnexpectedCharacter? || r.error.InvalidEscapeSequence? || r.error.InvalidUnicodeEscape?
    decreases |s|
  {
    if |s| == 0 then Ok("")
    else if s[0] != '\\' then
      if IsControl(s[0]) then Err(UnexpectedCharacter(s[0]))
      else Prepend([s[0]], Unescape(s[1..]))
    else if |s| == 1 then Err(UnexpectedEof)
    else if SimpleEscape(s[1]).Some? then Prepend([SimpleEscape(s[1]).value], Unescape(s[2..]))
    else if s[1] != 'u' then Err(InvalidEscapeSequence(['\\', s[1]]))
    else
      match UnicodeEscape(s[2..], true)
      case Err(e) => Err(e)
      case Ok((c, rest)) => Prepend([c], Unescape(rest))
  }

  // ----- Lemmas -----

  /** The value of four hexadecimal digits, place by place. */
  lemma HexDigitsValue4(s: string)
    requires |s| == 4 && AllHex(s)
    ensures HexDigitsValue(s) == HexValue(s[0]) * 4096 + HexValue(s[1]) * 256 + HexValue(s[2]) * 16 + HexValue(s[3])
  {
    var s3, s2, s1 := s[..3], s[..2], s[..1];
    assert s3[..2] == s2 && s2[..1] == s1 && s1[..0] == [];
    assert HexDigitsValue(s1) == HexValue(s[0]);
    assert HexDigitsValue(s2) == HexValue(s[0]) * 16 + HexValue(s[1]);
    assert HexDigitsValue(s3) == (HexValue(s[0]) * 16 + HexValue(s[1])) * 16 + HexValue(s[2]);
  }

  /** Reading four digits ignores whatever follows them. */
  lemma ReadHex4Append(s: string, t: string, strict: bool)
    requires ReadHex4(s, strict).Ok?
    ensures ReadHex4(s + t, strict) == Ok((ReadHex4(s, strict).value.0, ReadHex4(s, strict).value.1 + t))
  {
    assert (s + t)[..4] == s[..4];
    assert (s + t)[4..] == s[4..] + t;
  }

  /** A `\u` escape decodes the same whatever follows it. */
  lemma UnicodeEscapeAppend(s: string, t: string, strict: bool)
    requires UnicodeEscape(s, strict).Ok?
    ensures UnicodeEscape(s + t, strict) == Ok((UnicodeEscape(s, strict).value.0, UnicodeEscape(s, strict).value.1 + t))
  {
    ReadHex4Append(s, t, strict);
    var (hi, rest) := ReadHex4(s, strict).value;
    if 0xD800 <= hi <= 0xDBFF {
      assert (rest + t)[2..] == rest[2..] + t;
      ReadHex4Append(rest[2..], t, strict);
    }
  }

  /**
    Unescaping is compositional: once a prefix decodes on its own, the whole
    decodes to its result followed by the decoding of the rest.
   */
  lemma {:induction false} UnescapeAppend(s: string, t: string)
    requires Unescape(s).Ok?
    ensures Unescape(s + t) == Prepend(Unescape(s).value, Unescape(t))
    decreases |s|
  {
    if |s| > 0 {
      var st := s + t;
      assert st[0] == s[0];
      if s[0] != '\\' {
        assert st[1..] == s[1..] + t;
        UnescapeAppend(s[1..], t);
        PrependPrepend([s[0]], Unescape(s[1..]).value, Unescape(t));
        assert Unescape(st) == Prepend([s[0]], Unescape(s[1..] + t));
        assert Unescape(s) == Prepend([s[0]], Unescape(s[1..]));
      } else if SimpleEscape(s[1]).Some? {
        assert st[1] == s[1];
        assert st[2..] == s[2..] + t;
        UnescapeAppend(s[2..], t);
        PrependPrepend([SimpleEscape(s[1]).value], Unescape(s[2..]).value, Unescape(t));
        assert Unescape(st) == Prepend([SimpleEscape(s[1]).value], Unescape(s[2..] + t));
        assert Unescape(s) == Prepend([SimpleEscape(s[1]).value], Unescape(s[2..]));
      } else {
        assert st[1] == s[1];
        assert st[2..] == s[2..] + t;
        UnicodeEscapeAppend(s[2..], t, true);
        var (c, rest) := UnicodeEscape(s[2..], true).value;
        UnescapeAppend(rest, t);
        PrependPrepend([c], Unescape(rest).value, Unescape(t));
        assert Unescape(st) == Prepend([c], Unescape(rest + t));
        assert Unescape(s) == Prepend([c], Unescape(rest));
      }
    } else {
      assert s + t == t;
      if Unescape(t).Ok? {
        assert s + Unescape(t).value == Unescape(t).value;
      }
    }
  }

  lemma PrependPrepend(p: string, q: string, r: Result<string, ParseError>)
    ensures Prepend(p, Prepend(q, r)) == Prepend(p + q, r)
  {
    if r.Ok? {
      assert p + (q + r.value) == (p + q) + r.value;
    }
  }

  /** One escaped character decodes back to the character, whatever follows. */
  lemma EscapeCharUnescapes(c: char, t: string)
    ensures Unescape(EscapeChar(c) + t) == Prepend([c], Unescape(t))
  {
    var e := EscapeChar(c);
    if IsControl(c) && !(c as int == 0x08 || c as int == 0x0C || c == '\n' || c == '\r' || c == '\t') {
      var x := (e + t)[2..];
      assert x == e[2..] + t;
      assert x[..4] == e[2..];
      assert (e + t)[..2] == "\\u";
      assert UnicodeEscape(x, true) == Ok((c, t));
    } else if NeedsEscape(c) {
      assert (e + t)[2..] == t;
    } else {
      assert (e + t)[1..] == t;
    }
  }

  /** `unescape` undoes `write_escaped_str`, for every string. */
  lemma {:induction false} UnescapeEscape(s: string)
    ensures Unescape(Escape(s)) == Ok(s)
    decreases |s|
  {
    if |s| > 0 {
      UnescapeEscape(s[1..]);
      EscapeCharUnescapes(s[0], Escape(s[1..]));
      assert [s[0]] + s[1..] == s;
    }
  }

  /** A backslash followed by anything but a known escape letter is refused. */
  lemma UnknownEscape(e: char, t: string)
    requires e !in "\"\\/bfnrtu"
    ensures Unescape(['\\', e] + t) == Err(InvalidEscapeSequence(['\\', e]))
  {
    assert (['\\', e] + t)[1] == e;
  }

  /** After a complete decodable text, a lone trailing backslash is an early end of input. */
  lemma TrailingBackslash(s: string)
    requires Unescape(s).Ok?
    ensures Unescape(s + "\\") == Err(UnexpectedEof)
  {
    UnescapeAppend(s, "\\");
  }

  /** A raw control character is refused, after a prefix that decodes. */
  lemma RawControlRefused(s: string, c: char, t: string)
    requires Unescape(s).Ok? && IsControl(c)
    ensures Unescape(s + [c] + t) == Err(UnexpectedCharacter(c))
  {
    assert s + [c] + t == s + ([c] + t);
    UnescapeAppend(s, [c] + t);
  }

  /** `\u` with fewer than four hex digits before the text ends is refused. */
  lemma ShortUnicodeEscape(h: string)
    requires |h| < 4
    ensures Unescape("\\u" + h) == Err(InvalidUnicodeEscape)
  {
    var s := "\\u" + h;
    assert s[2..] == h;
  }

  /** A surrogate pair decodes to the single character it encodes. */
  lemma SurrogatePair(hi: string, lo: string, t: string)
    requires |hi| == 4 && AllHex(hi) && 0xD800 <= HexDigitsValue(hi) <= 0xDBFF
    requires |lo| == 4 && AllHex(lo) && 0xDC00 <= HexDigitsValue(lo) <= 0xDFFF
    ensures Unescape("\\u" + hi + "\\u" + lo + t)
         == Prepend([CombineSurrogates(HexDigitsValue(hi), HexDigitsValue(lo)) as char], Unescape(t))
  {
    var s := "\\u" + hi + "\\u" + lo + t;
    var x := s[2..];
    assert x == hi + "\\u" + lo + t;
    assert x[..4] == hi;
    var rest := x[4..];
    assert rest == "\\u" + lo + t;
    assert rest[2..][..4] == lo;
    assert rest[2..][4..] == t;
  }

  /** A high surrogate that is not followed by `\u` is refused. */
  lemma LoneHighSurrogate(hi: string, t: string)
    requires |hi| == 4 && AllHex(hi) && 0xD800 <= HexDigitsValue(hi) <= 0xDBFF
    requires !(|t| >= 2 && t[0] == '\\' && t[1] == 'u')
    ensures Unescape("\\u" + hi + t) == Err(InvalidUnicodeEscape)
  {
    var s := "\\u" + hi + t;
    assert s[2..] == hi + t;
    assert s[2..][..4] == hi;
    assert s[2..][4..] == t;
  }
}
