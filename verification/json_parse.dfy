/**
  The recursive-descent JSON parser of src/json_util.rs over `seq<char>`.
  Instead of building heap entries it yields a value tree; object members
  are inserted with `HashMap::insert` semantics, so a repeated key keeps its
  first position and takes the last value.
 */
module JsonParse {
  import opened Outcomes
  import opened Numerals
  import opened JsonEscape
  import A = Assoc

  /** What a parse yields: the shape of the `Data` built by the parser. */
  datatype Json =
    | JNull
    | JBool(b: bool)
    | JInt(i: i64)
    | JFloat(lexeme: string)
    | JString(s: string)
    | JObject(members: A.Entries<Json>)
    | JArray(items: seq<Json>)

  /** `char::is_whitespace`: the Unicode `White_Space` property. */
  predicate IsWhitespace(c: char)
  {
    || (0x09 <= c as int <= 0x0D) || c as int == 0x20 || c as int == 0x85 || c as int == 0xA0
    || c as int == 0x1680 || (0x2000 <= c as int <= 0x200A) || c as int == 0x2028
    || c as int == 0x2029 || c as int == 0x202F || c as int == 0x205F || c as int == 0x3000
  }

  predicate StartsWith(s: string, c: char)
  {
    |s| > 0 && s[0] == c
  }

  /** `skip_whitespace` (`str::trim_start`). */
  function SkipWs(s: string): (r: string)
    ensures |r| <= |s|
    ensures |r| > 0 ==> !IsWhitespace(r[0])
  {
    if |s| > 0 && IsWhitespace(s[0]) then SkipWs(s[1..]) else s
  }

  /** What `SkipWs` drops is a prefix of white space; it keeps the rest. */
  lemma {:induction false} SkipWsDrops(s: string)
    ensures s == s[..|s| - |SkipWs(s)|] + SkipWs(s)
    ensures forall i :: 0 <= i < |s| - |SkipWs(s)| ==> IsWhitespace(s[i])
    decreases |s|
  {
    if |s| > 0 && IsWhitespace(s[0]) {
      SkipWsDrops(s[1..]);
      assert s[1..] == s[1..][..|s| - 1 - |SkipWs(s)|] + SkipWs(s);
      assert s[..|s| - |SkipWs(s)|] == [s[0]] + s[1..][..|s| - 1 - |SkipWs(s)|];
    }
  }

  /** `str::trim_end`. */
  function TrimEnd(s: string): (r: string)
    ensures |r| <= |s| && r == s[..|r|]
    ensures |r| > 0 ==> !IsWhitespace(r[|r| - 1])
    ensures forall i :: |r| <= i < |s| ==> IsWhitespace(s[i])
  {
    if |s| > 0 && IsWhitespace(s[|s| - 1]) then TrimEnd(s[..|s| - 1]) else s
  }

  /** `str::trim`. */
  function Trim(s: string): string
  {
    TrimEnd(SkipWs(s))
  }

  /** `consume_char`: the text after `c` when the input starts with it. */
  function ConsumeChar(s: string, c: char): (r: Result<string, ParseError>)
    ensures r.Ok? <==> StartsWith(s, c)
    ensures r.Ok? ==> r.value == s[1..]
    ensures r.Err? ==> r.error == if |s| == 0 then UnexpectedEof else UnexpectedCharacter(s[0])
  {
    if StartsWith(s, c) then Ok(s[1..])
    else if |s| == 0 then Err(UnexpectedEof)
    else Err(UnexpectedCharacter(s[0]))
  }

  /** Puts `p` in front of the content of a successful string parse. */
  function PrependContent(p: string, r: Result<(string, string), ParseError>): Result<(string, string), ParseError>
  {
    if r.Ok? then Ok((p + r.value.0, r.value.1)) else r
  }

  /**
    `parse_string_content`, from just after the opening quote: the decoded
    content and the text after the closing quote. Raw control characters are
    let through, and `\u` digits are read by `u32::from_str_radix`.
   */
  function ParseStringContent(s: string): (r: Result<(string, string), ParseError>)
    ensures r.Ok? ==> |r.value.1| < |s|
    ensures r.Err? ==> r.error.UnexpectedEof? || r.error.InvalidEscapeSequence? || r.error.InvalidUnicodeEscape?
    decreases |s|
  {
    if |s| == 0 then Err(UnexpectedEof)
    else if s[0] == '"' then Ok(("", s[1..]))
    else if s[0] != '\\' then PrependContent([s[0]], ParseStringContent(s[1..]))
    else if |s| == 1 then Err(UnexpectedEof)
    else if SimpleEscape(s[1]).Some? then PrependContent([SimpleEscape(s[1]).value], ParseStringContent(s[2..]))
    else if s[1] != 'u' then Err(InvalidEscapeSequence(['\\', s[1]]))
    else
      match UnicodeEscape(s[2..], false)
      case Err(e) => Err(e)
      case Ok((c, rest)) => PrependContent([c], ParseStringContent(rest))
  }

  /**
    The scan loop of `parse_number` from position `i`: the length of the
    number text and whether a dot or an exponent was seen. After `e` or `E`
    a sign is taken into the text, but the loop then meets the sign itself
    and stops.
   */
  function ScanNumber(s: string, i: nat, dot: bool, exp: bool): (r: (nat, bool, bool))
    requires i <= |s|
    ensures i <= r.0 <= |s|
    ensures (dot ==> r.1) && (exp ==> r.2)
    ensures !r.1 && !r.2 ==> AllDecimal(s[i..r.0])
    decreases |s| - i
  {
    if i == |s| then (i, dot, exp)
    else
      var c := s[i];
      if '0' <= c <= '9' then
        var r := ScanNumber(s, i + 1, dot, exp);
        assert !r.1 && !r.2 ==> s[i..r.0] == [c] + s[i + 1..r.0];
        r
      else if c == '.' && !dot then ScanNumber(s, i + 1, true, exp)
      else if (c == 'e' || c == 'E') && !exp then
        if i + 1 < |s| && (s[i + 1] == '+' || s[i + 1] == '-') then (i + 2, true, true)
        else ScanNumber(s, i + 1, true, true)
      else (i, dot, exp)
  }

  /** The position of the first `e` or `E`, or the length when there is none. */
  function ExponentAt(s: string): (k: nat)
    ensures k <= |s|
    ensures k < |s| ==> s[k] == 'e' || s[k] == 'E'
    ensures forall i :: 0 <= i < k ==> s[i] != 'e' && s[i] != 'E'
  {
    if |s| == 0 || s[0] == 'e' || s[0] == 'E' then 0 else 1 + ExponentAt(s[1..])
  }

  /** The position of the first `.`, or the length when there is none. */
  function DotAt(s: string): (k: nat)
    ensures k <= |s|
    ensures k < |s| ==> s[k] == '.'
    ensures forall i :: 0 <= i < k ==> s[i] != '.'
  {
    if |s| == 0 || s[0] == '.' then 0 else 1 + DotAt(s[1..])
  }

  /** `Digit+ | Digit+ '.' Digit* | Digit* '.' Digit+`. */
  predicate MantissaSyntax(m: string)
  {
    var d := DotAt(m);
    if d == |m| then |m| > 0 && AllDecimal(m)
    else |m| > 1 && AllDecimal(m[..d]) && AllDecimal(m[d + 1..])
  }

  /** The part after `e`: an optional sign, then one or more digits. */
  predicate ExponentSyntax(x: string)
  {
    var y := if |x| > 0 && (x[0] == '+' || x[0] == '-') then x[1..] else x;
    |y| > 0 && AllDecimal(y)
  }

  /** Unsigned text that `str::parse::<f64>` accepts as a finite decimal. */
  predicate FloatSyntax(s: string)
  {
    var e := ExponentAt(s);
    MantissaSyntax(s[..e]) && (e == |s| || ExponentSyntax(s[e + 1..]))
  }

  /**
    `parse_number`: digits only and within `i64` give an integer; anything
    else that `f64` parsing accepts gives a float, kept as its text.
   */
  function ParseNumber(s0: string): (r: Result<(Json, string), ParseError>)
    ensures r.Ok? ==> |r.value.1| < |s0|
    ensures r.Ok? ==> r.value.0.JInt? || r.value.0.JFloat?
  {
    var s := SkipWs(s0);
    var (len, dot, exp) := ScanNumber(s, 0, false, false);
    if len == 0 then Err(ExpectedValue)
    else
      var lexeme := s[..len];
      if !dot && !exp && DecimalValue(lexeme) < 0x8000_0000_0000_0000 then
        Ok((JInt(DecimalValue(lexeme)), s[len..]))
      else if FloatSyntax(lexeme) then Ok((JFloat(lexeme), s[len..]))
      else Err(InvalidNumber(lexeme))
  }

  /** The characters a value can start with. */
  predicate Opens(c: char)
  {
    c == '"' || c == '{' || c == '[' || c == 't' || c == 'f' || c == 'n' || c == '-' || 48 <= c as int <= 57
  }

  /** The input starts with the literal `w`. */
  predicate StartsWithWord(s: string, w: string)
  {
    |s| >= |w| && forall i :: 0 <= i < |w| ==> s[i] == w[i]
  }

  /**
    `parse_value`: the value at the start of the input (after white space)
    and the text after it.
   */
  function ParseValue(s: string): (r: Result<(Json, string), ParseError>)
    ensures r.Ok? ==> |r.value.1| < |s|
    ensures r.Err? ==> r.error != ExpectedComma && r.error != ExpectedColon
    decreases |s|, 2
  {
    ValueAt(SkipWs(s))
  }

  /** The dispatch of `parse_value` on the first character, once white space is skipped. */
  function ValueAt(s: string): (r: Result<(Json, string), ParseError>)
    ensures r.Ok? ==> |r.value.1| < |s|
    ensures r.Ok? ==> |s| > 0 && Opens(s[0])
    ensures r.Err? ==> r.error != ExpectedComma && r.error != ExpectedColon
    decreases |s|, 1
  {
    if |s| == 0 then Err(UnexpectedEof)
    else
      var c := s[0];
      if c == '"' then
        match ParseStringContent(s[1..])
        case Err(e) => Err(e)
        case Ok((content, rest)) => Ok((JString(content), rest))
      else if c == '{' then ParseObject(s)
      else if c == '[' then ParseArray(s)
      else if c == 't' then
        if StartsWithWord(s, "true") then Ok((JBool(true), s[4..])) else Err(UnexpectedCharacter('t'))
      else if c == 'f' then
        if StartsWithWord(s, "false") then Ok((JBool(false), s[5..])) else Err(UnexpectedCharacter('f'))
      else if c == 'n' then
        if StartsWithWord(s, "null") then Ok((JNull, s[4..])) else Err(UnexpectedCharacter('n'))
      else if c == '-' || 48 <= c as int <= 57 then ParseNumber(s)
      else Err(UnexpectedCharacter(c))
  }

  /** `parse_object`, from the `{`. */
  function ParseObject(s: string): (r: Result<(Json, string), ParseError>)
    ensures r.Ok? ==> |r.value.1| < |s| && r.value.0.JObject?
    ensures r.Err? ==> r.error != ExpectedComma && r.error != ExpectedColon
    decreases |s|, 0
  {
    match ConsumeChar(s, '{')
    case Err(e) => Err(e)
    case Ok(s1) =>
      var s2 := SkipWs(s1);
      if StartsWith(s2, '}') then Ok((JObject([]), s2[1..]))
      else ParseMembers(s2, [], true)
  }

  /**
    The head of one pass of the member loop: after the first member a comma
    is required (a `}` there would be `ExpectedComma`, but the loop is only
    re-entered on a comma).
   */
  function ParseMembers(s: string, m: A.Entries<Json>, first: bool): (r: Result<(Json, string), ParseError>)
    ensures r.Ok? ==> |r.value.1| < |s| && r.value.0.JObject?
    ensures r.Err? ==> r.error != ExpectedColon
    ensures StartsWith(s, ',') && r.Err? ==> r.error != ExpectedComma
    ensures first && r.Err? ==> r.error != ExpectedComma
    decreases |s|, 4
  {
    if first then ParseMember(s, m)
    else
      var t := SkipWs(s);
      if StartsWith(t, '}') then Err(ExpectedComma)
      else
        match ConsumeChar(t, ',')
        case Err(e) => Err(e)
        case Ok(t1) => ParseMember(SkipWs(t1), m)
  }

  /** The rest of a pass of the member loop: the opening quote of the key. */
  function ParseMember(s: string, m: A.Entries<Json>): (r: Result<(Json, string), ParseError>)
    ensures r.Ok? ==> |r.value.1| < |s| && r.value.0.JObject?
    ensures r.Err? ==> r.error != ExpectedComma && r.error != ExpectedColon
    decreases |s|, 3
  {
    if StartsWith(s, '}') then Err(ExpectedCharacter('"'))
    else
      match ConsumeChar(SkipWs(s), '"')
      case Err(e) => Err(e)
      case Ok(s1) => MemberKey(s1, m)
  }

  /** The key of a member, after its opening quote. */
  function MemberKey(s: string, m: A.Entries<Json>): (r: Result<(Json, string), ParseError>)
    ensures r.Ok? ==> |r.value.1| < |s| && r.value.0.JObject?
    ensures r.Err? ==> r.error != ExpectedComma && r.error != ExpectedColon
    decreases |s|, 3
  {
    match ParseStringContent(s)
    case Err(e) => Err(e)
    case Ok((key, s2)) => MemberColon(SkipWs(s2), m, key)
  }

  /** The colon between a key and its value. */
  function MemberColon(s: string, m: A.Entries<Json>, key: string): (r: Result<(Json, string), ParseError>)
    ensures r.Ok? ==> |r.value.1| < |s| && r.value.0.JObject?
    ensures r.Err? ==> r.error != ExpectedComma && r.error != ExpectedColon
    decreases |s|, 3
  {
    match ConsumeChar(s, ':')
    case Err(e) => Err(e)
    case Ok(s3) => MemberValue(s3, m, key)
  }

  /** The value of a member and its insertion into the map. */
  function MemberValue(s: string, m: A.Entries<Json>, key: string): (r: Result<(Json, string), ParseError>)
    ensures r.Ok? ==> |r.value.1| < |s| && r.value.0.JObject?
    ensures r.Err? ==> r.error != ExpectedComma && r.error != ExpectedColon
    decreases |s|, 3
  {
    match ParseValue(SkipWs(s))
    case Err(e) => Err(e)
    case Ok((v, rest)) => MemberEnd(SkipWs(rest), A.Set(m, key, v).0)
  }

  /** After a member: `}` ends the object, `,` starts another pass. */
  function MemberEnd(s: string, m: A.Entries<Json>): (r: Result<(Json, string), ParseError>)
    ensures r.Ok? ==> |r.value.1| < |s| && r.value.0.JObject?
    ensures r.Err? ==> r.error != ExpectedComma && r.error != ExpectedColon
    decreases |s|, 5
  {
    if StartsWith(s, '}') then Ok((JObject(m), s[1..]))
    else if StartsWith(s, ',') then ParseMembers(s, m, false)
    else if |s| > 0 then Err(UnexpectedCharacter(s[0]))
    else Err(UnexpectedEof)
  }

  /** `parse_array`, from the `[`. */
  function ParseArray(s: string): (r: Result<(Json, string), ParseError>)
    ensures r.Ok? ==> |r.value.1| < |s| && r.value.0.JArray?
    ensures r.Err? ==> r.error != ExpectedComma && r.error != ExpectedColon
    decreases |s|, 0
  {
    match ConsumeChar(s, '[')
    case Err(e) => Err(e)
    case Ok(s1) =>
      var s2 := SkipWs(s1);
      if StartsWith(s2, ']') then Ok((JArray([]), s2[1..]))
      else ParseElements(s2, [], true)
  }

  /** The head of one pass of the element loop, as for objects. */
  function ParseElements(s: string, items: seq<Json>, first: bool): (r: Result<(Json, string), ParseError>)
    ensures r.Ok? ==> |r.value.1| < |s| && r.value.0.JArray?
    ensures r.Err? ==> r.error != ExpectedColon
    ensures StartsWith(s, ',') && r.Err? ==> r.error != ExpectedComma
    ensures first && r.Err? ==> r.error != ExpectedComma
    decreases |s|, 4
  {
    if first then ParseElement(s, items)
    else
      var t := SkipWs(s);
      if StartsWith(t, ']') then Err(ExpectedComma)
      else
        match ConsumeChar(t, ',')
        case Err(e) => Err(e)
        case Ok(t1) => ParseElement(SkipWs(t1), items)
  }

  /** The rest of a pass of the element loop: one value, appended. */
  function ParseElement(s: string, items: seq<Json>): (r: Result<(Json, string), ParseError>)
    ensures r.Ok? ==> |r.value.1| < |s| && r.value.0.JArray?
    ensures r.Err? ==> r.error != ExpectedComma && r.error != ExpectedColon
    decreases |s|, 3
  {
    if StartsWith(s, ']') then Err(ExpectedValue)
    else
      match ParseValue(SkipWs(s))
      case Err(e) => Err(e)
      case Ok((v, rest)) => ElementEnd(SkipWs(rest), items + [v])
  }

  /** After an element: `]` ends the array, `,` starts another pass. */
  function ElementEnd(s: string, items: seq<Json>): (r: Result<(Json, string), ParseError>)
    ensures r.Ok? ==> |r.value.1| < |s| && r.value.0.JArray?
    ensures r.Err? ==> r.error != ExpectedComma && r.error != ExpectedColon
    decreases |s|, 5
  {
    if StartsWith(s, ']') then Ok((JArray(items), s[1..]))
    else if StartsWith(s, ',') then ParseElements(s, items, false)
    else if |s| > 0 then Err(UnexpectedCharacter(s[0]))
    else Err(UnexpectedEof)
  }

  /**
    The tail shared by `object_from_string` and `array_from_string`: anything
    but white space after the value is refused, trimmed.
   */
  function Complete(r: Result<(Json, string), ParseError>): Result<Json, ParseError>
  {
    match r
    case Err(e) => Err(e)
    case Ok((v, rest)) => if |Trim(rest)| > 0 then Err(TrailingCharacters(Trim(rest))) else Ok(v)
  }

  /** `object_from_string`: the whole trimmed input must be one object. */
  function ObjectFromString(s: string): (r: Result<Json, ParseError>)
    ensures r.Ok? ==> r.value.JObject?
    ensures |Trim(s)| == 0 ==> r == Err(UnexpectedEof)
  {
    var t := Trim(s);
    if |t| == 0 then Err(UnexpectedEof) else Complete(ParseObject(t))
  }

  /** `array_from_string`: the whole trimmed input must be one array. */
  function ArrayFromString(s: string): (r: Result<Json, ParseError>)
    ensures r.Ok? ==> r.value.JArray?
    ensures |Trim(s)| == 0 ==> r == Err(UnexpectedEof)
  {
    var t := Trim(s);
    if |t| == 0 then Err(UnexpectedEof) else Complete(ParseArray(t))
  }

  // ----- Lemmas -----

  /** One escaped character reads back as that character, whatever follows. */
  lemma EscapeCharParses(c: char, u: string)
    ensures ParseStringContent(EscapeChar(c) + u) == PrependContent([c], ParseStringContent(u))
  {
    var e := EscapeChar(c);
    if IsControl(c) && !(c as int == 0x08 || c as int == 0x0C || c == '\n' || c == '\r' || c == '\t') {
      var x := (e + u)[2..];
      assert x == e[2..] + u;
      assert x[..4] == e[2..];
      assert UnicodeEscape(x, false) == Ok((c, u));
    } else if NeedsEscape(c) {
      assert (e + u)[2..] == u;
    } else {
      assert (e + u)[1..] == u;
    }
  }

  /**
    A string written by `write_escaped_str` and closed by a quote reads back
    as the same string, and the parse stops right after the quote.
   */
  lemma {:induction false} StringRoundTrip(s: string, t: string)
    ensures ParseStringContent(Escape(s) + "\"" + t) == Ok((s, t))
    decreases |s|
  {
    if |s| == 0 {
      assert Escape(s) + "\"" + t == "\"" + t;
      assert ("\"" + t)[1..] == t;
    } else {
      StringRoundTrip(s[1..], t);
      EscapedTextStep(s, t);
      EscapeCharParses(s[0], Escape(s[1..]) + "\"" + t);
      ConsHead(s);
    }
  }

  /** The escaped text of a non-empty string starts with its first character's escape. */
  lemma EscapedTextStep(s: string, t: string)
    requires |s| > 0
    ensures Escape(s) + "\"" + t == EscapeChar(s[0]) + (Escape(s[1..]) + "\"" + t)
  {
    var a, b, q := EscapeChar(s[0]), Escape(s[1..]), "\"";
    assert Escape(s) == a + b;
    JoinThree(a + b, q, t);
    JoinThree(a, b, q + t);
    JoinThree(b, q, t);
  }

  /** Concatenation is associative. */
  lemma JoinThree(a: string, b: string, c: string)
    ensures (a + b) + c == a + (b + c)
  {
  }

  /** A non-empty sequence is its head followed by its tail. */
  lemma ConsHead(s: string)
    requires |s| > 0
    ensures [s[0]] + s[1..] == s
  {
  }

  /**
    The decoders differ on `\\u`: the string parser hands the four characters
    to `u32::from_str_radix`, which takes a leading `+`; `unescape` demands
    four hex digits.
   */
  lemma PlusInUnicodeEscape()
    ensures ParseStringContent("\\u+041\"") == Ok(("A", ""))
    ensures Unescape("\\u+041") == Err(InvalidUnicodeEscape)
  {
    var s := "\\u+041\"";
    assert s[0] == '\\' && s[1] == 'u' && |s| == 7;
    assert SimpleEscape('u').None?;
    PlusEscape(s[2..]);
    assert ParseStringContent("\"") == Ok(("", ""));
    assert "A" + "" == "A";
    PlusRefused();
  }

  /** `u32::from_str_radix` reads `+041` as 0x41. */
  lemma PlusHexDigits()
    ensures FromStrRadix16("+041") == Some(0x41)
  {
    var d := "041";
    assert "+041"[0] == '+' && "+041"[1..] == d;
    assert d[..2] == "04" && "04"[..1] == "0" && "0"[..0] == [];
    assert '0' as int == 48 && '4' as int == 52 && '1' as int == 49;
    assert HexValue('0') == 0 && HexValue('4') == 4 && HexValue('1') == 1;
    assert HexDigitsValue("0") == 0;
    assert HexDigitsValue("04") == 4;
    assert HexDigitsValue(d) == 0x41;
  }

  /** So the loose escape reader turns `+041` into `A`. */
  lemma PlusEscape(x: string)
    requires x == "+041\""
    ensures UnicodeEscape(x, false) == Ok(('A', "\""))
  {
    assert x[..4] == "+041" && x[4..] == "\"";
    PlusHexDigits();
    assert ReadHex4(x, false) == Ok((0x41, "\""));
    assert 0x41 as char == 'A';
  }

  /** `unescape` refuses the same escape. */
  lemma PlusRefused()
    ensures Unescape("\\u+041") == Err(InvalidUnicodeEscape)
  {
    var s := "\\u+041";
    assert s[0] == '\\' && s[1] == 'u';
    assert SimpleEscape('u').None?;
    assert s[2..][..4] == "+041";
    assert '+' as int == 43;
    assert !IsHexDigit('+');
    assert s[2..][..4][0] == '+';
    assert !AllHex(s[2..][..4]);
  }

  /** The decoders differ on raw control characters: the string parser keeps them. */
  lemma RawControlInString(c: char)
    requires IsControl(c)
    ensures ParseStringContent([c] + "\"") == Ok(([c], ""))
    ensures Unescape([c]) == Err(UnexpectedCharacter(c))
  {
    assert c as int < 0x20;
    var s := [c] + "\"";
    assert s[0] == c && s[1..] == "\"";
    assert ParseStringContent("\"") == Ok(("", ""));
    assert [c] + "" == [c];
  }

  /** A run of digits scans to its end when the next character cannot continue a number. */
  lemma {:induction false} ScanDigits(d: string, t: string, i: nat)
    requires AllDecimal(d) && i <= |d|
    requires NumberStop(t)
    ensures ScanNumber(d + t, i, false, false) == (|d|, false, false)
    decreases |d| - i
  {
    var s := d + t;
    if i < |d| {
      assert s[i] == d[i];
      ScanDigits(d, t, i + 1);
    } else if |t| > 0 {
      assert s[i] == t[0];
    }
  }

  /** The input ends, or its next character cannot belong to a number. */
  predicate NumberStop(t: string)
  {
    |t| == 0 || !('0' <= t[0] <= '9' || t[0] == '.' || t[0] == 'e' || t[0] == 'E')
  }

  /** A value that starts with a digit or a minus sign is read by the number parser. */
  lemma NumberDispatch(s: string)
    requires |s| > 0 && ('0' <= s[0] <= '9' || s[0] == '-')
    ensures ParseValue(s) == ParseNumber(s)
  {
    NumberStart(s[0]);
    assert SkipWs(s) == s;
  }

  /** A character that opens a number opens nothing else and is not white space. */
  lemma NumberStart(c: char)
    requires '0' <= c <= '9' || c == '-'
    ensures !IsWhitespace(c)
    ensures !(c == '"' || c == '{' || c == '[' || c == 't' || c == 'f' || c == 'n')
  {
    assert c as int == 45 || 48 <= c as int <= 57;
  }

  /** A value that starts with `[` is read by the array parser. */
  lemma ArrayDispatch(s: string)
    requires StartsWith(s, '[')
    ensures ParseValue(s) == ParseArray(s)
  {
    assert SkipWs(s) == s;
  }

  /** A value that starts with `{` is read by the object parser. */
  lemma ObjectDispatch(s: string)
    requires StartsWith(s, '{')
    ensures ParseValue(s) == ParseObject(s)
  {
    assert SkipWs(s) == s;
  }

  /**
    Digits that fit in `i64` parse as that integer, leading zeros and all,
    and the parse stops after the last digit.
   */
  lemma IntegerParses(d: string, t: string)
    requires |d| > 0 && AllDecimal(d) && DecimalValue(d) < 0x8000_0000_0000_0000
    requires NumberStop(t)
    ensures ParseValue(d + t) == Ok((JInt(DecimalValue(d)), t))
  {
    var s := d + t;
    assert s[0] == d[0];
    assert SkipWs(s) == s;
    ScanDigits(d, t, 0);
    assert s[..|d|] == d && s[|d|..] == t;
  }

  /** Digits beyond the `i64` range are taken as a float. */
  lemma LargeIntegerIsFloat(d: string, t: string)
    requires |d| > 0 && AllDecimal(d) && DecimalValue(d) >= 0x8000_0000_0000_0000
    requires NumberStop(t)
    ensures ParseValue(d + t) == Ok((JFloat(d), t))
  {
    var s := d + t;
    assert s[0] == d[0];
    NumberDispatch(s);
    assert SkipWs(s) == s;
    ScanDigits(d, t, 0);
    assert s[..|d|] == d && s[|d|..] == t;
    DigitsAreFloat(d);
  }

  /** A run of digits is float text. */
  lemma DigitsAreFloat(d: string)
    requires |d| > 0 && AllDecimal(d)
    ensures FloatSyntax(d)
  {
    DigitsHaveNoMarks(d);
    assert d[..|d|] == d;
  }

  /** A run of digits holds no dot and no exponent mark. */
  lemma {:induction false} DigitsHaveNoMarks(d: string)
    requires AllDecimal(d)
    ensures DotAt(d) == |d| && ExponentAt(d) == |d|
    decreases |d|
  {
    if |d| > 0 {
      assert 48 <= d[0] as int <= 57;
      DigitsHaveNoMarks(d[1..]);
    }
  }

  /** A leading minus sign is dispatched to the number parser, which finds no number. */
  lemma NegativeRefused(t: string)
    ensures ParseValue("-" + t) == Err(ExpectedValue)
  {
    var s := "-" + t;
    assert SkipWs(s) == s;
    assert ScanNumber(s, 0, false, false) == (0, false, false);
  }

  /**
    A signed exponent ends the number text right after the sign, and that
    text is not a float: `1e+5` is refused as `1e+`.
   */
  lemma SignedExponentCut(d: string, sign: char, t: string)
    requires |d| > 0 && AllDecimal(d) && (sign == '+' || sign == '-')
    ensures ParseValue(d + "e" + [sign] + t) == Err(InvalidNumber(d + "e" + [sign]))
  {
    var s := d + "e" + [sign] + t;
    var lexeme := d + "e" + [sign];
    assert s == lexeme + t;
    assert s[0] == d[0];
    assert SkipWs(s) == s;
    ScanExponent(d, sign, t, 0);
    assert s[..|d| + 2] == lexeme;
    assert lexeme == d + ("e" + [sign]);
    ExponentAfterDigits(d, "e" + [sign]);
    assert lexeme[|d| + 1..] == [sign];
  }

  lemma {:induction false} ScanExponent(d: string, sign: char, t: string, i: nat)
    requires AllDecimal(d) && i <= |d| && (sign == '+' || sign == '-')
    ensures ScanNumber(d + "e" + [sign] + t, i, false, false) == (|d| + 2, true, true)
    decreases |d| - i
  {
    var s := d + "e" + [sign] + t;
    if i < |d| {
      assert s[i] == d[i];
      ScanExponent(d, sign, t, i + 1);
    } else {
      assert s[i] == 'e' && s[i + 1] == sign;
    }
  }

  lemma {:induction false} ExponentAfterDigits(d: string, x: string)
    requires AllDecimal(d) && |x| > 0 && x[0] == 'e'
    ensures ExponentAt(d + x) == |d|
    decreases |d|
  {
    if |d| > 0 {
      assert (d + x)[1..] == d[1..] + x;
      ExponentAfterDigits(d[1..], x);
    } else {
      assert d + x == x;
    }
  }

  /** Skipping white space twice is skipping it once. */
  lemma SkipWsTwice(s: string)
    ensures SkipWs(SkipWs(s)) == SkipWs(s)
  {
  }

  /** `parse_value` skips leading white space itself. */
  lemma ParseValueSkips(x: string)
    ensures ParseValue(SkipWs(x)) == ParseValue(x)
  {
    SkipWsTwice(x);
  }

  /** Text that holds a value does not start, after white space, with a closing bracket. */
  lemma ValueStart(x: string)
    requires ParseValue(x).Ok?
    ensures |SkipWs(x)| > 0 && SkipWs(x)[0] != ']' && SkipWs(x)[0] != '}'
  {
    var s := SkipWs(x);
    assert Opens(s[0]);
    assert s[0] != ']' && s[0] != '}';
  }

  /** A comma before the next element is consumed with the white space after it. */
  lemma ElementsComma(u: string, items: seq<Json>)
    ensures ParseElements("," + u, items, false) == ParseElement(SkipWs(u), items)
  {
    var s := "," + u;
    assert SkipWs(s) == s;
    assert s[1..] == u;
  }

  /** A comma before the next member is consumed with the white space after it. */
  lemma MembersComma(u: string, m: A.Entries<Json>)
    ensures ParseMembers("," + u, m, false) == ParseMember(SkipWs(u), m)
  {
    var s := "," + u;
    assert SkipWs(s) == s;
    assert s[1..] == u;
  }

  /** Text that does not start with white space is left alone by the skip. */
  lemma NoLeadingWs(s: string)
    requires |s| > 0 && !IsWhitespace(s[0])
    ensures SkipWs(s) == s
  {
  }

  /** After `[`, text that does not close the array at once is read as its first element. */
  lemma ArrayOpen(x: string)
    requires !StartsWith(SkipWs(x), ']')
    ensures ParseArray("[" + x) == ParseElement(SkipWs(x), [])
  {
    assert ("[" + x)[1..] == x;
  }

  /** One pass of the element loop reads a value and continues after it. */
  lemma ElementStep(s: string, items: seq<Json>)
    requires !StartsWith(s, ']') && ParseValue(s).Ok?
    ensures ParseElement(s, items) == ElementEnd(SkipWs(ParseValue(s).value.1), items + [ParseValue(s).value.0])
  {
    ParseValueSkips(s);
  }

  /** A comma after an element starts another pass of the loop. */
  lemma ElementEndComma(u: string, items: seq<Json>)
    requires StartsWith(u, ',')
    ensures ElementEnd(u, items) == ParseElements(u, items, false)
  {
    assert u[0] as int == 44;
  }

  /** A pass of the element loop that meets `]` reports a missing value. */
  lemma ElementClose(u: string, items: seq<Json>)
    requires StartsWith(u, ']')
    ensures ParseElement(u, items) == Err(ExpectedValue)
  {
  }

  /** The first element of a non-empty array is the value the text starts with. */
  lemma FirstElement(x: string)
    requires ParseValue(x).Ok?
    ensures ParseValue("[" + x) == ElementEnd(SkipWs(ParseValue(x).value.1), [ParseValue(x).value.0])
  {
    ArrayDispatch("[" + x);
    ValueStart(x);
    ArrayOpen(x);
    ParseValueSkips(x);
    ElementStep(SkipWs(x), []);
    assert [] + [ParseValue(x).value.0] == [ParseValue(x).value.0];
  }

  /** A comma directly followed by `]` after an element is refused: a value was expected. */
  lemma CommaClose(t: string, items: seq<Json>)
    ensures ElementEnd(",]" + t, items) == Err(ExpectedValue)
  {
    ElementEndComma(",]" + t, items);
    assert ",]" + t == "," + ("]" + t);
    ElementsComma("]" + t, items);
    NoLeadingWs("]" + t);
    ElementClose("]" + t, items);
  }

  /** After a first element, a comma directly followed by `]` is refused. */
  lemma ArrayTrailingComma(x: string, j: Json, t: string)
    requires ParseValue(x) == Ok((j, ",]" + t))
    ensures ParseValue("[" + x) == Err(ExpectedValue)
  {
    FirstElement(x);
    NoLeadingWs(",]" + t);
    CommaClose(t, [j]);
  }

  /** After a value, any character other than a separator or a closing bracket is refused as itself. */
  lemma UnexpectedAfterElement(v: string, j: Json, c: char, t: string)
    requires c != ',' && c != ']' && !IsWhitespace(c)
    requires ParseValue(v + [c] + t) == Ok((j, [c] + t))
    ensures ParseValue("[" + v + [c] + t) == Err(UnexpectedCharacter(c))
  {
    var x := v + [c] + t;
    assert "[" + v + [c] + t == "[" + x;
    FirstElement(x);
    assert SkipWs([c] + t) == [c] + t;
  }

  /** After `{`, text that does not close the object at once is read as its first member. */
  lemma ObjectOpen(y: string)
    requires !StartsWith(SkipWs(y), '}')
    ensures ParseObject("{" + y) == ParseMember(SkipWs(y), [])
  {
    assert ("{" + y)[1..] == y;
  }

  /** A member starting with a quote goes on to its key. */
  lemma MemberQuote(s: string, m: A.Entries<Json>)
    requires StartsWith(s, '"')
    ensures ParseMember(s, m) == MemberKey(s[1..], m)
  {
    assert s[0] as int == 34;
    NoLeadingWs(s);
  }

  /**
    An object's first key, read after the `{` and its opening quote; `z` is the
    text from the key's first character, `rest` what follows its closing quote.
   */
  lemma FirstKey(z: string, k: string, rest: string)
    requires ParseStringContent(z) == Ok((k, rest))
    ensures ParseValue("{\"" + z) == MemberColon(SkipWs(rest), [], k)
  {
    var y := "\"" + z;
    var s := "{" + y;
    assert "{\"" + z == s;
    ObjectDispatch(s);
    NoLeadingWs(y);
    ObjectOpen(y);
    MemberQuote(y, []);
    assert y[1..] == z;
  }

  /** A colon is consumed and the value read after it. */
  lemma ColonStep(x: string, m: A.Entries<Json>, key: string)
    ensures MemberColon(":" + x, m, key) == MemberValue(x, m, key)
  {
    assert (":" + x)[1..] == x;
  }

  /** The value of a member is read and the member stored before the loop goes on. */
  lemma MemberValueStep(x: string, m: A.Entries<Json>, key: string)
    requires ParseValue(x).Ok?
    ensures MemberValue(x, m, key)
         == MemberEnd(SkipWs(ParseValue(x).value.1), A.Set(m, key, ParseValue(x).value.0).0)
  {
    ParseValueSkips(x);
  }

  /** A comma after a member starts another pass of the loop. */
  lemma MemberEndComma(u: string, m: A.Entries<Json>)
    requires StartsWith(u, ',')
    ensures MemberEnd(u, m) == ParseMembers(u, m, false)
  {
    assert u[0] as int == 44;
  }

  /** A pass of the member loop that meets `}` reports a missing key. */
  lemma MemberClose(u: string, m: A.Entries<Json>)
    requires StartsWith(u, '}')
    ensures ParseMember(u, m) == Err(ExpectedCharacter('"'))
  {
  }

  /** A comma directly followed by `}` after a member is refused: a key was expected. */
  lemma CommaCloseBrace(t: string, m: A.Entries<Json>)
    ensures MemberEnd(",}" + t, m) == Err(ExpectedCharacter('"'))
  {
    MemberEndComma(",}" + t, m);
    assert ",}" + t == "," + ("}" + t);
    MembersComma("}" + t, m);
    NoLeadingWs("}" + t);
    MemberClose("}" + t, m);
  }

  /** After a first member, a comma directly followed by `}` is refused. */
  lemma ObjectTrailingComma(z: string, k: string, x: string, j: Json, t: string)
    requires ParseStringContent(z) == Ok((k, ":" + x))
    requires ParseValue(x) == Ok((j, ",}" + t))
    ensures ParseValue("{\"" + z) == Err(ExpectedCharacter('"'))
  {
    FirstKey(z, k, ":" + x);
    NoLeadingWs(":" + x);
    ColonStep(x, [], k);
    MemberValueStep(x, [], k);
    NoLeadingWs(",}" + t);
    CommaCloseBrace(t, A.Set([], k, j).0);
  }

  /** A key followed by anything but a colon is refused as that character. */
  lemma MissingColon(z: string, k: string, c: char, t: string)
    requires c != ':' && !IsWhitespace(c)
    requires ParseStringContent(z) == Ok((k, [c] + t))
    ensures ParseValue("{\"" + z) == Err(UnexpectedCharacter(c))
  {
    FirstKey(z, k, [c] + t);
    NoLeadingWs([c] + t);
  }

  /** Text with no white space at either end is its own trim. */
  lemma TrimmedAlready(s: string)
    requires |s| > 0 && !IsWhitespace(s[0]) && !IsWhitespace(s[|s| - 1])
    ensures Trim(s) == s
  {
    assert SkipWs(s) == s;
  }

  /** Non-blank text after a complete object is reported, trimmed, as trailing characters. */
  lemma TrailingAfterObject(w: string)
    requires |w| > 0 && !IsWhitespace(w[0]) && !IsWhitespace(w[|w| - 1])
    ensures ObjectFromString("{}" + w) == Err(TrailingCharacters(w))
  {
    var s := "{}" + w;
    assert s[|s| - 1] == w[|w| - 1];
    TrimmedAlready(s);
    TrimmedAlready(w);
    assert s[1..] == "}" + w;
    assert SkipWs("}" + w) == "}" + w;
    assert ("}" + w)[1..] == w;
    assert ParseObject(s) == Ok((JObject([]), w));
  }

  /** The same for arrays. */
  lemma TrailingAfterArray(w: string)
    requires |w| > 0 && !IsWhitespace(w[0]) && !IsWhitespace(w[|w| - 1])
    ensures ArrayFromString("[]" + w) == Err(TrailingCharacters(w))
  {
    var s := "[]" + w;
    assert s[|s| - 1] == w[|w| - 1];
    TrimmedAlready(s);
    TrimmedAlready(w);
    assert s[1..] == "]" + w;
    assert SkipWs("]" + w) == "]" + w;
    assert ("]" + w)[1..] == w;
    assert ParseArray(s) == Ok((JArray([]), w));
  }

  // ----- Steps used by the round trip of the writer -----

  /** A value that starts with a quote is a string. */
  lemma StringDispatch(z: string)
    ensures ParseValue("\"" + z)
         == if ParseStringContent(z).Ok? then Ok((JString(ParseStringContent(z).value.0), ParseStringContent(z).value.1))
            else Err(ParseStringContent(z).error)
  {
    var s := "\"" + z;
    NoLeadingWs(s);
    assert s[1..] == z;
  }

  /** `null`, `true` and `false` are read as the literals, whatever follows. */
  lemma LiteralParses(w: string, j: Json, t: string)
    requires (w, j) == ("null", JNull) || (w, j) == ("true", JBool(true)) || (w, j) == ("false", JBool(false))
    ensures ParseValue(w + t) == Ok((j, t))
  {
    var s := w + t;
    assert s[0] == w[0];
    assert w[0] as int == 110 || w[0] as int == 116 || w[0] as int == 102;
    NoLeadingWs(s);
    assert forall i :: 0 <= i < |w| ==> s[i] == w[i];
    assert s[|w|..] == t;
  }

  /** `[]` is the empty array, whatever follows. */
  lemma EmptyArrayParses(t: string)
    ensures ParseValue("[]" + t) == Ok((JArray([]), t))
  {
    var s := "[]" + t;
    ArrayDispatch(s);
    assert s[1..] == "]" + t;
    NoLeadingWs("]" + t);
    assert ("]" + t)[1..] == t;
  }

  /** `{}` is the empty object, whatever follows. */
  lemma EmptyObjectParses(t: string)
    ensures ParseValue("{}" + t) == Ok((JObject([]), t))
  {
    var s := "{}" + t;
    ObjectDispatch(s);
    assert s[1..] == "}" + t;
    NoLeadingWs("}" + t);
    assert ("}" + t)[1..] == t;
  }

  /** A `]` after an element ends the array with the elements read so far. */
  lemma ElementEndClose(t: string, items: seq<Json>)
    ensures ElementEnd("]" + t, items) == Ok((JArray(items), t))
  {
    assert ("]" + t)[1..] == t;
  }

  /** A `}` after a member ends the object with the members read so far. */
  lemma MemberEndClose(t: string, m: A.Entries<Json>)
    ensures MemberEnd("}" + t, m) == Ok((JObject(m), t))
  {
    assert ("}" + t)[1..] == t;
  }

  /** A key that reads as a string is followed by the search for its colon. */
  lemma KeyStep(z: string, m: A.Entries<Json>)
    requires ParseStringContent(z).Ok?
    ensures MemberKey(z, m) == MemberColon(SkipWs(ParseStringContent(z).value.1), m, ParseStringContent(z).value.0)
  {
  }

  /** A separator or a closing bracket ends a number. */
  lemma StopsNumber(u: string)
    requires StartsWith(u, ',') || StartsWith(u, ']') || StartsWith(u, '}')
    ensures NumberStop(u)
  {
    assert u[0] as int == 44 || u[0] as int == 93 || u[0] as int == 125;
  }
}
