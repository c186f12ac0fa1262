/**
  The serialiser of src/json_util.rs: `write_data`, `write_object`,
  `write_array` and `write_escaped_str` between quotes, first over the value
  tree of the parser and then over the store, where a handle is followed to
  its heap entry.
 */
module JsonWrite {
  import opened Outcomes
  import opened Numerals
  import opened Values
  import opened Stores
  import opened JsonEscape
  import opened JsonParse
  import A = Assoc
  import B = Bytes

  /** A string as `write_data` emits it: escaped, between quotes. */
  function Quoted(s: string): (r: string)
    ensures |r| >= 2 && r[0] == '"' && r[|r| - 1] == '"'
  {
    "\"" + Escape(s) + "\""
  }

  /** The text of a value tree; a float is written as its own lexeme. */
  function Render(j: Json): string
    decreases j, 1
  {
    match j
    case JNull => "null"
    case JBool(b) => if b then "true" else "false"
    case JInt(i) => IntText(i)
    case JFloat(x) => x
    case JString(s) => Quoted(s)
    case JObject(m) => "{" + RenderMembers(m) + "}"
    case JArray(items) => "[" + RenderItems(items) + "]"
  }

  /** One member: the quoted key, a colon, the value. */
  function RenderMember(e: (string, Json)): (r: string)
    ensures |r| > 0 && r[0] == '"'
    decreases e, 2
  {
    Quoted(e.0) + ":" + Render(e.1)
  }

  /** The members in order, separated by single commas. */
  function RenderMembers(m: A.Entries<Json>): (r: string)
    ensures |m| > 0 ==> |r| > 0 && r[0] == '"'
    decreases m, 0
  {
    if |m| == 0 then ""
    else if |m| == 1 then RenderMember(m[0])
    else RenderMember(m[0]) + "," + RenderMembers(m[1..])
  }

  /** The elements in order, separated by single commas. */
  function RenderItems(items: seq<Json>): string
    decreases items, 0
  {
    if |items| == 0 then ""
    else if |items| == 1 then Render(items[0])
    else Render(items[0]) + "," + RenderItems(items[1..])
  }

  /**
    The trees the parser can give back: no float (its text is left to the
    float formatter), no negative integer (the parser refuses a leading `-`)
    and no key twice in an object.
   */
  predicate Parsable(j: Json)
    decreases j, 1
  {
    match j
    case JInt(i) => i >= 0
    case JFloat(_) => false
    case JObject(m) => A.UniqueKeys(m) && MembersParsable(m)
    case JArray(items) => ItemsParsable(items)
    case _ => true
  }

  predicate EntryParsable(e: (string, Json))
    decreases e, 2
  {
    Parsable(e.1)
  }

  predicate MembersParsable(m: A.Entries<Json>)
    decreases m, 0
  {
    |m| == 0 || (EntryParsable(m[0]) && MembersParsable(m[1..]))
  }

  predicate ItemsParsable(items: seq<Json>)
    decreases items, 0
  {
    |items| == 0 || (Parsable(items[0]) && ItemsParsable(items[1..]))
  }

  // ----- Shape of the text -----

  /** The text of a value the parser can read back starts with a character that opens a value. */
  lemma RenderHead(j: Json)
    requires Parsable(j)
    ensures |Render(j)| > 0 && Opens(Render(j)[0])
    ensures !IsWhitespace(Render(j)[0]) && Render(j)[0] != ']' && Render(j)[0] != '}'
  {
    var c := Render(j)[0];
    assert c as int == 34 || c as int == 123 || c as int == 91 || c as int == 116
        || c as int == 102 || c as int == 110 || 48 <= c as int <= 57;
  }

  /** Elements are joined by single commas, with no white space. */
  lemma {:induction false} RenderItemsAppend(a: seq<Json>, b: seq<Json>)
    requires |a| > 0 && |b| > 0
    ensures RenderItems(a + b) == RenderItems(a) + "," + RenderItems(b)
    decreases |a|
  {
    var ab := a + b;
    assert ab[0] == a[0];
    if |a| == 1 {
      assert ab[1..] == b;
    } else {
      assert ab[1..] == a[1..] + b;
      RenderItemsAppend(a[1..], b);
    }
  }

  /** Members are joined the same way. */
  lemma {:induction false} RenderMembersAppend(a: A.Entries<Json>, b: A.Entries<Json>)
    requires |a| > 0 && |b| > 0
    ensures RenderMembers(a + b) == RenderMembers(a) + "," + RenderMembers(b)
    decreases |a|
  {
    var ab := a + b;
    assert ab[0] == a[0];
    if |a| == 1 {
      assert ab[1..] == b;
    } else {
      assert ab[1..] == a[1..] + b;
      RenderMembersAppend(a[1..], b);
    }
  }

  // ----- Round trip through the parser -----

  /**
    `parse_value` reads the text of a value back as the same tree and stops
    right after it, when what follows cannot continue a number.
   */
  lemma {:induction false} RoundTrip(j: Json, t: string)
    requires Parsable(j) && NumberStop(t)
    ensures ParseValue(Render(j) + t) == Ok((j, t))
    decreases j, 2
  {
    match j
    case JNull => LiteralParses("null", j, t);
    case JBool(b) =>
      if b { LiteralParses("true", j, t); } else { LiteralParses("false", j, t); }
    case JInt(i) => IntegerRoundTrip(i, t);
    case JString(x) => StringValueRoundTrip(x, t);
    case JArray(items) => ArrayRoundTrip(items, t);
    case JObject(m) => ObjectRoundTrip(m, t);
  }

  /** The integer case of the round trip. */
  lemma IntegerRoundTrip(i: i64, t: string)
    requires i >= 0 && NumberStop(t)
    ensures ParseValue(Render(JInt(i)) + t) == Ok((JInt(i), t))
  {
    NatTextRoundTrip(i);
    IntegerParses(NatText(i), t);
  }

  /** The string case of the round trip. */
  lemma StringValueRoundTrip(x: string, t: string)
    ensures ParseValue(Render(JString(x)) + t) == Ok((JString(x), t))
  {
    QuotedText(x, t);
    QuotedParses(x, t);
  }

  /** The text of a string value, regrouped as the parser reads it. */
  lemma QuotedText(x: string, t: string)
    ensures Render(JString(x)) + t == "\"" + (Escape(x) + "\"" + t)
  {
  }

  /** A quote, the escaped content and a closing quote read back as the string. */
  lemma QuotedParses(x: string, t: string)
    ensures ParseValue("\"" + (Escape(x) + "\"" + t)) == Ok((JString(x), t))
  {
    StringRoundTrip(x, t);
    StringDispatch(Escape(x) + "\"" + t);
  }

  /** The array case of the round trip. */
  lemma ArrayRoundTrip(items: seq<Json>, t: string)
    requires ItemsParsable(items)
    ensures ParseValue(Render(JArray(items)) + t) == Ok((JArray(items), t))
    decreases items, 3
  {
    if |items| == 0 {
      assert Render(JArray(items)) + t == "[]" + t;
      EmptyArrayParses(t);
    } else {
      var x := RenderItems(items) + "]" + t;
      assert Render(JArray(items)) + t == "[" + x;
      ArrayDispatch("[" + x);
      ItemsHead(items, "]" + t);
      NoLeadingWs(x);
      ArrayOpen(x);
      ItemsRoundTrip([], items, t);
      assert [] + items == items;
    }
  }

  /** The text of non-empty elements starts with the text of the first. */
  lemma ItemsHead(items: seq<Json>, u: string)
    requires |items| > 0 && ItemsParsable(items)
    ensures |Render(items[0])| > 0 && |RenderItems(items) + u| > 0
    ensures (RenderItems(items) + u)[0] == Render(items[0])[0]
    ensures !IsWhitespace((RenderItems(items) + u)[0]) && (RenderItems(items) + u)[0] != ']'
  {
    RenderHead(items[0]);
  }

  /**
    The element loop, entered at the text of the elements `s` with `p` read
    already, reads them all and the closing bracket.
   */
  lemma {:induction false} ItemsRoundTrip(p: seq<Json>, s: seq<Json>, t: string)
    requires |s| > 0 && ItemsParsable(s)
    ensures ParseElement(RenderItems(s) + "]" + t, p) == Ok((JArray(p + s), t))
    decreases s, 2
  {
    if |s| == 1 {
      LastItem(p, s, t);
    } else {
      NextItem(p, s, t);
      ShiftHead(p, s);
      ItemsRoundTrip(p + [s[0]], s[1..], t);
    }
  }

  /** Moving the first of `s` to the end of `p` keeps the whole sequence. */
  lemma ShiftHead<T>(p: seq<T>, s: seq<T>)
    requires |s| > 0
    ensures p + [s[0]] + s[1..] == p + s
  {
    assert [s[0]] + s[1..] == s;
  }

  /** The first of the elements `s`, followed by `rest`, is read and appended to `p`. */
  lemma ItemStep(p: seq<Json>, s: seq<Json>, rest: string)
    requires |s| > 0 && ItemsParsable(s) && NumberStop(rest)
    ensures ParseElement(Render(s[0]) + rest, p) == ElementEnd(SkipWs(rest), p + [s[0]])
    decreases s, 0
  {
    RoundTrip(s[0], rest);
    RenderHead(s[0]);
    ElementStep(Render(s[0]) + rest, p);
  }

  /** The text of a single element and the bracket. */
  lemma ItemsTextLast(s: seq<Json>, t: string)
    requires |s| == 1
    ensures RenderItems(s) + "]" + t == Render(s[0]) + ("]" + t)
  {
    ItemsOne(s);
    Append3(Render(s[0]), "]", t);
  }

  /** The text of the elements and the bracket, split after the first element. */
  lemma ItemsTextNext(s: seq<Json>, t: string)
    requires |s| > 1
    ensures RenderItems(s) + "]" + t == Render(s[0]) + ("," + (RenderItems(s[1..]) + "]" + t))
  {
    ItemsSplit(s);
    Joined(RenderItems(s), Render(s[0]), RenderItems(s[1..]), "]", t);
  }

  /** One element is rendered on its own. */
  lemma ItemsOne(s: seq<Json>)
    requires |s| == 1
    ensures RenderItems(s) == Render(s[0])
  {
  }

  /** Non-empty elements after the first are joined to it by a comma. */
  lemma ItemsSplit(s: seq<Json>)
    requires |s| > 1
    ensures RenderItems(s) == Render(s[0]) + "," + RenderItems(s[1..])
  {
  }

  /** Concatenation is associative. */
  lemma Append3(a: string, b: string, c: string)
    ensures a + b + c == a + (b + c)
  {
  }

  /** A text joined by a comma, continued, regrouped around the comma. */
  lemma Joined(x: string, h: string, r: string, b: string, t: string)
    requires x == h + "," + r
    ensures x + b + t == h + ("," + (r + b + t))
  {
  }

  /** An element followed by the closing bracket ends the array. */
  lemma CloseArray(p: seq<Json>, s: seq<Json>, t: string)
    requires |s| == 1
    ensures ElementEnd("]" + t, p + [s[0]]) == Ok((JArray(p + s), t))
  {
    ElementEndClose(t, p + [s[0]]);
    assert p + [s[0]] == p + s;
  }

  /** The last element is followed by the closing bracket. */
  lemma LastItem(p: seq<Json>, s: seq<Json>, t: string)
    requires |s| == 1 && ItemsParsable(s)
    ensures ParseElement(RenderItems(s) + "]" + t, p) == Ok((JArray(p + s), t))
    decreases s, 1
  {
    ItemsTextLast(s, t);
    StopsNumber("]" + t);
    ItemStep(p, s, "]" + t);
    NoLeadingWs("]" + t);
    CloseArray(p, s, t);
  }

  /** An element that is not the last is followed by a comma and the next pass of the loop. */
  lemma NextItem(p: seq<Json>, s: seq<Json>, t: string)
    requires |s| > 1 && ItemsParsable(s)
    ensures ParseElement(RenderItems(s) + "]" + t, p) == ParseElement(RenderItems(s[1..]) + "]" + t, p + [s[0]])
    decreases s, 1
  {
    var u := RenderItems(s[1..]) + "]" + t;
    ItemsTextNext(s, t);
    StopsNumber("," + u);
    ItemStep(p, s, "," + u);
    NoLeadingWs("," + u);
    ItemsHead(s[1..], "]" + t);
    CommaThenElement(u, p + [s[0]]);
  }

  /** After an element, a comma and the next element's first character go on to that element. */
  lemma CommaThenElement(u: string, items: seq<Json>)
    requires |u| > 0 && !IsWhitespace(u[0])
    ensures ElementEnd("," + u, items) == ParseElement(u, items)
  {
    ElementEndComma("," + u, items);
    ElementsComma(u, items);
    NoLeadingWs(u);
  }

  /** The object case of the round trip. */
  lemma ObjectRoundTrip(m: A.Entries<Json>, t: string)
    requires A.UniqueKeys(m) && MembersParsable(m)
    ensures ParseValue(Render(JObject(m)) + t) == Ok((JObject(m), t))
    decreases m, 3
  {
    if |m| == 0 {
      assert Render(JObject(m)) + t == "{}" + t;
      EmptyObjectParses(t);
    } else {
      var y := RenderMembers(m) + "}" + t;
      assert Render(JObject(m)) + t == "{" + y;
      ObjectDispatch("{" + y);
      MembersHead(m, "}" + t);
      NoLeadingWs(y);
      ObjectOpen(y);
      assert [] + m == m;
      MembersRoundTrip([], m, t);
    }
  }

  /** The text of non-empty members starts with a quote. */
  lemma MembersHead(m: A.Entries<Json>, u: string)
    requires |m| > 0
    ensures |RenderMembers(m) + u| > 0 && StartsWith(RenderMembers(m) + u, '"')
    ensures !IsWhitespace((RenderMembers(m) + u)[0])
  {
    var r := RenderMembers(m);
    assert (r + u)[0] == r[0];
  }

  /**
    One member: its text, followed by `rest`, is read and stored at the end
    of the members `p` read before, when its key is new.
   */
  lemma MemberRoundTrip(e: (string, Json), p: A.Entries<Json>, rest: string)
    requires EntryParsable(e) && e.0 !in A.Keys(p) && NumberStop(rest)
    ensures ParseMember(RenderMember(e) + rest, p) == MemberEnd(SkipWs(rest), p + [e])
    decreases e, 3
  {
    var v := Render(e.1) + rest;
    var z := Escape(e.0) + "\"" + (":" + v);
    MemberText(Escape(e.0), Render(e.1), rest);
    MemberQuote("\"" + z, p);
    assert ("\"" + z)[1..] == z;
    StringRoundTrip(e.0, ":" + v);
    KeyStep(z, p);
    NoLeadingWs(":" + v);
    ColonStep(v, p, e.0);
    RoundTrip(e.1, rest);
    MemberValueStep(v, p, e.0);
    A.SetAbsentAppends(p, e.0, e.1);
  }

  /** The text of a member, regrouped after its opening quote. */
  lemma MemberText(k: string, w: string, rest: string)
    ensures "\"" + k + "\"" + ":" + w + rest == "\"" + (k + "\"" + (":" + (w + rest)))
  {
  }

  /** The first of the members `s` after the members `p`, whose keys are all different. */
  lemma MemberStep(p: A.Entries<Json>, s: A.Entries<Json>, rest: string)
    requires |s| > 0 && MembersParsable(s) && A.UniqueKeys(p + s) && NumberStop(rest)
    ensures ParseMember(RenderMember(s[0]) + rest, p) == MemberEnd(SkipWs(rest), p + [s[0]])
    decreases s, 0
  {
    A.UniqueKeysSplit(p, s);
    MemberRoundTrip(s[0], p, rest);
  }

  /**
    The member loop, entered at the text of the members `s` with `p` read
    already, reads them all and the closing brace.
   */
  lemma {:induction false} MembersRoundTrip(p: A.Entries<Json>, s: A.Entries<Json>, t: string)
    requires |s| > 0 && MembersParsable(s) && A.UniqueKeys(p + s)
    ensures ParseMember(RenderMembers(s) + "}" + t, p) == Ok((JObject(p + s), t))
    decreases s, 2
  {
    if |s| == 1 {
      LastMember(p, s, t);
    } else {
      var q := p + [s[0]];
      NextMember(p, s, t);
      ShiftHead(p, s);
      MembersRoundTrip(q, s[1..], t);
    }
  }

  /** The text of a single member and the brace. */
  lemma MembersTextLast(s: A.Entries<Json>, t: string)
    requires |s| == 1
    ensures RenderMembers(s) + "}" + t == RenderMember(s[0]) + ("}" + t)
  {
    MembersOne(s);
    Append3(RenderMember(s[0]), "}", t);
  }

  /** The text of the members and the brace, split after the first member. */
  lemma MembersTextNext(s: A.Entries<Json>, t: string)
    requires |s| > 1
    ensures RenderMembers(s) + "}" + t == RenderMember(s[0]) + ("," + (RenderMembers(s[1..]) + "}" + t))
  {
    MembersSplit(s);
    Joined(RenderMembers(s), RenderMember(s[0]), RenderMembers(s[1..]), "}", t);
  }

  /** One member is rendered on its own. */
  lemma MembersOne(s: A.Entries<Json>)
    requires |s| == 1
    ensures RenderMembers(s) == RenderMember(s[0])
  {
  }

  /** Non-empty members after the first are joined to it by a comma. */
  lemma MembersSplit(s: A.Entries<Json>)
    requires |s| > 1
    ensures RenderMembers(s) == RenderMember(s[0]) + "," + RenderMembers(s[1..])
  {
  }

  /** A member followed by the closing brace ends the object. */
  lemma CloseObject(p: A.Entries<Json>, s: A.Entries<Json>, t: string)
    requires |s| == 1
    ensures MemberEnd("}" + t, p + [s[0]]) == Ok((JObject(p + s), t))
  {
    MemberEndClose(t, p + [s[0]]);
    assert p + [s[0]] == p + s;
  }

  /** The last member is followed by the closing brace. */
  lemma LastMember(p: A.Entries<Json>, s: A.Entries<Json>, t: string)
    requires |s| == 1 && MembersParsable(s) && A.UniqueKeys(p + s)
    ensures ParseMember(RenderMembers(s) + "}" + t, p) == Ok((JObject(p + s), t))
    decreases s, 1
  {
    MembersTextLast(s, t);
    StopsNumber("}" + t);
    MemberStep(p, s, "}" + t);
    NoLeadingWs("}" + t);
    CloseObject(p, s, t);
  }

  /** A member that is not the last is followed by a comma and the next pass of the loop. */
  lemma NextMember(p: A.Entries<Json>, s: A.Entries<Json>, t: string)
    requires |s| > 1 && MembersParsable(s) && A.UniqueKeys(p + s)
    ensures ParseMember(RenderMembers(s) + "}" + t, p) == ParseMember(RenderMembers(s[1..]) + "}" + t, p + [s[0]])
    decreases s, 1
  {
    var u := RenderMembers(s[1..]) + "}" + t;
    MembersTextNext(s, t);
    StopsNumber("," + u);
    MemberStep(p, s, "," + u);
    NoLeadingWs("," + u);
    MembersHead(s[1..], "}" + t);
    CommaThenMember(u, p + [s[0]]);
  }

  /** After a member, a comma and the next member's quote go on to that member. */
  lemma CommaThenMember(u: string, q: A.Entries<Json>)
    requires StartsWith(u, '"')
    ensures MemberEnd("," + u, q) == ParseMember(u, q)
  {
    MemberEndComma("," + u, q);
    MembersComma(u, q);
    assert u[0] as int == 34;
    NoLeadingWs(u);
  }

  // ----- The store -----

  /** Text that `write_escaped_str` leaves as it is. */
  predicate Plain(s: string)
  {
    forall i :: 0 <= i < |s| ==> !NeedsEscape(s[i])
  }

  /** Plain text is its own escape. */
  lemma {:induction false} EscapePlain(s: string)
    requires Plain(s)
    ensures Escape(s) == s
  {
    if |s| > 0 {
      EscapePlain(s[1..]);
      assert [s[0]] + s[1..] == s;
    }
  }

  lemma PlainAppend(a: string, b: string)
    requires Plain(a) && Plain(b)
    ensures Plain(a + b)
  {
    assert forall i :: 0 <= i < |a + b| ==> (a + b)[i] == if i < |a| then a[i] else b[i - |a|];
  }

  /** Hexadecimal digits are never escaped. */
  lemma HexDigitsPlain(s: string)
    requires AllHex(s)
    ensures Plain(s)
  {
    forall i | 0 <= i < |s|
      ensures !NeedsEscape(s[i])
    {
      assert IsHexDigit(s[i]);
      assert 48 <= s[i] as int;
    }
  }

  /**
    The `to_hex_string` text needs no escaping, so writing it raw between
    quotes, as `write_data` does for Bytes, is writing it as a string.
   */
  lemma {:induction false} HexStringPlain(data: seq<u8>)
    ensures Plain(HexString(data))
    ensures Escape(HexString(data)) == HexString(data)
    decreases |data|
  {
    if |data| == 1 {
      HexDigitsPlain(HexByte(data[0]));
    } else if |data| > 1 {
      HexDigitsPlain(HexByte(data[0]));
      HexStringPlain(data[1..]);
      assert !NeedsEscape(' ');
      PlainAppend(HexByte(data[0]), " ");
      PlainAppend(HexByte(data[0]) + " ", HexString(data[1..]));
    }
    EscapePlain(HexString(data));
  }

  /**
    The value tree a stored value stands for: handles are followed to their
    heap entries, Bytes become their hexadecimal text and a float becomes
    the text `floatText` gives it (the `Display` of `f64`). `None` when a
    handle is not live, which is a panic of `get` in the source, or when
    containers nest deeper than `fuel`.
   */
  function Snapshot(st: State, d: Data, fuel: nat, floatText: F64 -> string): (r: Option<Json>)
    ensures r.Some? && d.DObject? ==> r.value.JObject? && ObjectAt(st, d.index).Some?
    ensures r.Some? && d.DArray? ==> r.value.JArray? && ArrayAt(st, d.index).Some?
    ensures r.Some? && d.DBytes? ==> LiveAt(st, KBytes, d.index)
    decreases fuel, 0, 0
  {
    match d
    case DNull => Some(JNull)
    case DBoolean(b) => Some(JBool(b))
    case DInt(i) => Some(JInt(i))
    case DFloat(f) => Some(JFloat(floatText(f)))
    case DString(s) => Some(JString(s))
    case DBytes(i) => if LiveAt(st, KBytes, i) then Some(JString(B.ToHexString(st, i))) else None
    case DObject(i) =>
      if fuel == 0 || ObjectAt(st, i).None? then None
      else
        (match SnapMembers(st, ObjectAt(st, i).value, fuel - 1, floatText)
         case None => None
         case Some(m) => Some(JObject(m)))
    case DArray(i) =>
      if fuel == 0 || ArrayAt(st, i).None? then None
      else
        match SnapItems(st, ArrayAt(st, i).value, fuel - 1, floatText)
        case None => None
        case Some(items) => Some(JArray(items))
  }

  /** The members of a stored map, key by key, with their values' trees. */
  function SnapMembers(st: State, m: A.Entries<Data>, fuel: nat, floatText: F64 -> string): (r: Option<A.Entries<Json>>)
    ensures r.Some? ==> |r.value| == |m| && A.Keys(r.value) == A.Keys(m)
    decreases fuel, 1, |m|
  {
    if |m| == 0 then Some([])
    else
      match Snapshot(st, m[0].1, fuel, floatText)
      case None => None
      case Some(j) =>
        match SnapMembers(st, m[1..], fuel, floatText)
        case None => None
        case Some(rest) =>
          A.KeysHead(m);
          A.KeysHead([(m[0].0, j)] + rest);
          assert ([(m[0].0, j)] + rest)[1..] == rest;
          Some([(m[0].0, j)] + rest)
  }

  /** The elements of a stored array, with their values' trees. */
  function SnapItems(st: State, v: seq<Data>, fuel: nat, floatText: F64 -> string): (r: Option<seq<Json>>)
    ensures r.Some? ==> |r.value| == |v|
    decreases fuel, 1, |v|
  {
    if |v| == 0 then Some([])
    else
      match Snapshot(st, v[0], fuel, floatText)
      case None => None
      case Some(j) =>
        match SnapItems(st, v[1..], fuel, floatText)
        case None => None
        case Some(rest) => Some([j] + rest)
  }

  /**
    `write_data`: the text of a stored value. Bytes are written as their
    `to_hex_string` between quotes with no escaping; a string is escaped.
    `None` as for `Snapshot`.
   */
  function WriteData(st: State, d: Data, fuel: nat, floatText: F64 -> string): (r: Option<string>)
    decreases fuel, 0, 0
  {
    match d
    case DNull => Some("null")
    case DBoolean(b) => Some(if b then "true" else "false")
    case DInt(i) => Some(IntText(i))
    case DFloat(f) => Some(floatText(f))
    case DString(s) => Some("\"" + Escape(s) + "\"")
    case DBytes(i) => if LiveAt(st, KBytes, i) then Some("\"" + B.ToHexString(st, i) + "\"") else None
    case DObject(i) =>
      if fuel == 0 || ObjectAt(st, i).None? then None
      else
        (match WriteMembers(st, ObjectAt(st, i).value, fuel - 1, floatText)
         case None => None
         case Some(w) => Some("{" + w + "}"))
    case DArray(i) =>
      if fuel == 0 || ArrayAt(st, i).None? then None
      else
        match WriteItems(st, ArrayAt(st, i).value, fuel - 1, floatText)
        case None => None
        case Some(w) => Some("[" + w + "]")
  }

  /** The loop of `write_object` between the braces: a comma before every member but the first. */
  function WriteMembers(st: State, m: A.Entries<Data>, fuel: nat, floatText: F64 -> string): (r: Option<string>)
    decreases fuel, 1, |m|
  {
    if |m| == 0 then Some("")
    else
      match WriteData(st, m[0].1, fuel, floatText)
      case None => None
      case Some(w) =>
        var member := "\"" + Escape(m[0].0) + "\"" + ":" + w;
        if |m| == 1 then Some(member)
        else
          match WriteMembers(st, m[1..], fuel, floatText)
          case None => None
          case Some(rest) => Some(member + "," + rest)
  }

  /** The loop of `write_array` between the brackets. */
  function WriteItems(st: State, v: seq<Data>, fuel: nat, floatText: F64 -> string): (r: Option<string>)
    decreases fuel, 1, |v|
  {
    if |v| == 0 then Some("")
    else
      match WriteData(st, v[0], fuel, floatText)
      case None => None
      case Some(w) =>
        if |v| == 1 then Some(w)
        else
          match WriteItems(st, v[1..], fuel, floatText)
          case None => None
          case Some(rest) => Some(w + "," + rest)
  }

  /** The text of a rendered tree, when there is a tree. */
  function RenderOpt(j: Option<Json>): Option<string>
  {
    if j.Some? then Some(Render(j.value)) else None
  }

  function RenderMembersOpt(m: Option<A.Entries<Json>>): Option<string>
  {
    if m.Some? then Some(RenderMembers(m.value)) else None
  }

  function RenderItemsOpt(items: Option<seq<Json>>): Option<string>
  {
    if items.Some? then Some(RenderItems(items.value)) else None
  }

  /** The writer emits exactly the rendering of the value's tree, and fails exactly when there is none. */
  lemma {:induction false} WriteIsRender(st: State, d: Data, fuel: nat, floatText: F64 -> string)
    ensures WriteData(st, d, fuel, floatText) == RenderOpt(Snapshot(st, d, fuel, floatText))
    decreases fuel, 0, 0
  {
    if d.DBytes? && LiveAt(st, KBytes, d.index) {
      BytesWriteIsRender(st, d, fuel, floatText);
    } else if d.DObject? && fuel > 0 && ObjectAt(st, d.index).Some? {
      WriteMembersIsRender(st, ObjectAt(st, d.index).value, fuel - 1, floatText);
      ObjectWriteIsRender(st, d, fuel, floatText);
    } else if d.DArray? && fuel > 0 && ArrayAt(st, d.index).Some? {
      WriteItemsIsRender(st, ArrayAt(st, d.index).value, fuel - 1, floatText);
      ArrayWriteIsRender(st, d, fuel, floatText);
    } else {
      OtherWriteIsRender(st, d, fuel, floatText);
    }
  }

  /** A scalar, or a handle to a freed entry or nested deeper than the fuel. */
  lemma OtherWriteIsRender(st: State, d: Data, fuel: nat, floatText: F64 -> string)
    requires d.DBytes? ==> !LiveAt(st, KBytes, d.index)
    requires d.DObject? ==> fuel == 0 || ObjectAt(st, d.index).None?
    requires d.DArray? ==> fuel == 0 || ArrayAt(st, d.index).None?
    ensures WriteData(st, d, fuel, floatText) == RenderOpt(Snapshot(st, d, fuel, floatText))
  {
  }

  /** Bytes are written as the string of their hexadecimal text. */
  lemma BytesWriteIsRender(st: State, d: Data, fuel: nat, floatText: F64 -> string)
    requires d.DBytes? && LiveAt(st, KBytes, d.index)
    ensures WriteData(st, d, fuel, floatText) == RenderOpt(Snapshot(st, d, fuel, floatText))
  {
    HexStringPlain(B.GetData(st, d.index));
  }

  /** An object is written as the rendering of its members' trees. */
  lemma ObjectWriteIsRender(st: State, d: Data, fuel: nat, floatText: F64 -> string)
    requires d.DObject? && fuel > 0 && ObjectAt(st, d.index).Some?
    requires WriteMembers(st, ObjectAt(st, d.index).value, fuel - 1, floatText)
          == RenderMembersOpt(SnapMembers(st, ObjectAt(st, d.index).value, fuel - 1, floatText))
    ensures WriteData(st, d, fuel, floatText) == RenderOpt(Snapshot(st, d, fuel, floatText))
  {
  }

  /** An array is written as the rendering of its elements' trees. */
  lemma ArrayWriteIsRender(st: State, d: Data, fuel: nat, floatText: F64 -> string)
    requires d.DArray? && fuel > 0 && ArrayAt(st, d.index).Some?
    requires WriteItems(st, ArrayAt(st, d.index).value, fuel - 1, floatText)
          == RenderItemsOpt(SnapItems(st, ArrayAt(st, d.index).value, fuel - 1, floatText))
    ensures WriteData(st, d, fuel, floatText) == RenderOpt(Snapshot(st, d, fuel, floatText))
  {
  }

  lemma {:induction false} WriteMembersIsRender(st: State, m: A.Entries<Data>, fuel: nat, floatText: F64 -> string)
    ensures WriteMembers(st, m, fuel, floatText) == RenderMembersOpt(SnapMembers(st, m, fuel, floatText))
    decreases fuel, 1, |m|
  {
    if |m| > 0 {
      WriteIsRender(st, m[0].1, fuel, floatText);
      WriteMembersIsRender(st, m[1..], fuel, floatText);
      var j := Snapshot(st, m[0].1, fuel, floatText);
      var r := SnapMembers(st, m[1..], fuel, floatText);
      if j.Some? && r.Some? {
        MembersCons((m[0].0, j.value), r.value);
      }
    }
  }

  lemma {:induction false} WriteItemsIsRender(st: State, v: seq<Data>, fuel: nat, floatText: F64 -> string)
    ensures WriteItems(st, v, fuel, floatText) == RenderItemsOpt(SnapItems(st, v, fuel, floatText))
    decreases fuel, 1, |v|
  {
    if |v| > 0 {
      WriteIsRender(st, v[0], fuel, floatText);
      WriteItemsIsRender(st, v[1..], fuel, floatText);
      var j := Snapshot(st, v[0], fuel, floatText);
      var r := SnapItems(st, v[1..], fuel, floatText);
      if j.Some? && r.Some? {
        ItemsCons(j.value, r.value);
      }
    }
  }

  /** The members' text with one more member in front. */
  lemma MembersCons(e: (string, Json), r: A.Entries<Json>)
    ensures RenderMembers([e] + r) == if |r| == 0 then RenderMember(e) else RenderMember(e) + "," + RenderMembers(r)
  {
    assert ([e] + r)[1..] == r;
  }

  /** The elements' text with one more element in front. */
  lemma ItemsCons(j: Json, r: seq<Json>)
    ensures RenderItems([j] + r) == if |r| == 0 then Render(j) else Render(j) + "," + RenderItems(r)
  {
    assert ([j] + r)[1..] == r;
  }

  /**
    What is written of a stored value reads back, whatever follows that
    cannot extend a number, as the value's tree, when the tree holds no
    float, no negative integer and no key twice.
   */
  lemma WrittenParses(st: State, d: Data, fuel: nat, floatText: F64 -> string, t: string)
    requires Snapshot(st, d, fuel, floatText).Some? && Parsable(Snapshot(st, d, fuel, floatText).value)
    requires NumberStop(t)
    ensures WriteData(st, d, fuel, floatText).Some?
    ensures ParseValue(WriteData(st, d, fuel, floatText).value + t) == Ok((Snapshot(st, d, fuel, floatText).value, t))
  {
    WriteIsRender(st, d, fuel, floatText);
    RoundTrip(Snapshot(st, d, fuel, floatText).value, t);
  }

  /** A negative integer is written with a leading minus sign, which the parser refuses. */
  lemma WrittenNegativeRefused(st: State, i: i64, fuel: nat, floatText: F64 -> string, t: string)
    requires i < 0
    ensures WriteData(st, DInt(i), fuel, floatText).Some?
    ensures ParseValue(WriteData(st, DInt(i), fuel, floatText).value + t) == Err(ExpectedValue)
  {
    var w := WriteData(st, DInt(i), fuel, floatText).value;
    assert w + t == "-" + (NatText(-(i as int)) + t);
    NegativeRefused(NatText(-(i as int)) + t);
  }

  /** `object_to_string`: `write_object` on a stored object. */
  function ObjectToString(st: State, i: nat, fuel: nat, floatText: F64 -> string): (r: Option<string>)
    ensures r.Some? <==> Snapshot(st, DObject(i), fuel, floatText).Some?
    ensures r.Some? ==> |r.value| >= 2 && r.value[0] == '{' && r.value[|r.value| - 1] == '}'
  {
    WriteIsRender(st, DObject(i), fuel, floatText);
    WriteData(st, DObject(i), fuel, floatText)
  }

  /** `array_to_string`: `write_array` on a stored array. */
  function ArrayToString(st: State, i: nat, fuel: nat, floatText: F64 -> string): (r: Option<string>)
    ensures r.Some? <==> Snapshot(st, DArray(i), fuel, floatText).Some?
    ensures r.Some? ==> |r.value| >= 2 && r.value[0] == '[' && r.value[|r.value| - 1] == ']'
  {
    WriteIsRender(st, DArray(i), fuel, floatText);
    WriteData(st, DArray(i), fuel, floatText)
  }

  /**
    `Data::string`, which is `as_string` for anything but a string: the
    payload of a string, the decimal text of an integer, `true` or `false`,
    `null`, the hexadecimal text of Bytes, and the JSON text of a container.
   */
  function AsString(st: State, d: Data, fuel: nat, floatText: F64 -> string): (r: Option<string>)
  {
    match d
    case DString(s) => Some(s)
    case DFloat(f) => Some(floatText(f))
    case DInt(i) => Some(IntText(i))
    case DBoolean(b) => Some(if b then "true" else "false")
    case DObject(i) => ObjectToString(st, i, fuel, floatText)
    case DArray(i) => ArrayToString(st, i, fuel, floatText)
    case DBytes(i) => if LiveAt(st, KBytes, i) then Some(B.ToHexString(st, i)) else None
    case DNull => Some("null")
  }

  /**
    `as_string` agrees with `write_data` except on strings, which it does not
    escape or quote, and on Bytes, which it does not quote.
   */
  lemma AsStringIsWritten(st: State, d: Data, fuel: nat, floatText: F64 -> string)
    ensures !d.DString? && !d.DBytes? ==> AsString(st, d, fuel, floatText) == WriteData(st, d, fuel, floatText)
    ensures d.DBytes? ==> WriteData(st, d, fuel, floatText).Some? == AsString(st, d, fuel, floatText).Some?
    ensures d.DBytes? && AsString(st, d, fuel, floatText).Some?
        ==> WriteData(st, d, fuel, floatText).value == "\"" + AsString(st, d, fuel, floatText).value + "\""
    ensures d.DString? ==> AsString(st, d, fuel, floatText) == Some(d.str)
  {
  }

  /** A whole text that is one rendered tree is read back by the entry points as that tree. */
  lemma WholeText(j: Json)
    requires Parsable(j)
    ensures ParseValue(Render(j)) == Ok((j, ""))
    ensures Trim("") == ""
  {
    RoundTrip(j, "");
    assert Render(j) + "" == Render(j);
  }

  /** `object_from_string` reads what `object_to_string` writes. */
  lemma ObjectReadsBack(st: State, i: nat, fuel: nat, floatText: F64 -> string)
    requires Snapshot(st, DObject(i), fuel, floatText).Some? && Parsable(Snapshot(st, DObject(i), fuel, floatText).value)
    ensures ObjectToString(st, i, fuel, floatText).Some?
    ensures ObjectFromString(ObjectToString(st, i, fuel, floatText).value) == Ok(Snapshot(st, DObject(i), fuel, floatText).value)
  {
    var j := Snapshot(st, DObject(i), fuel, floatText).value;
    var w := ObjectToString(st, i, fuel, floatText).value;
    WriteIsRender(st, DObject(i), fuel, floatText);
    assert w == Render(j);
    assert w[0] as int == 123 && w[|w| - 1] as int == 125;
    TrimmedAlready(w);
    ObjectDispatch(w);
    WholeText(j);
  }

  /** `array_from_string` reads what `array_to_string` writes. */
  lemma ArrayReadsBack(st: State, i: nat, fuel: nat, floatText: F64 -> string)
    requires Snapshot(st, DArray(i), fuel, floatText).Some? && Parsable(Snapshot(st, DArray(i), fuel, floatText).value)
    ensures ArrayToString(st, i, fuel, floatText).Some?
    ensures ArrayFromString(ArrayToString(st, i, fuel, floatText).value) == Ok(Snapshot(st, DArray(i), fuel, floatText).value)
  {
    var j := Snapshot(st, DArray(i), fuel, floatText).value;
    var w := ArrayToString(st, i, fuel, floatText).value;
    WriteIsRender(st, DArray(i), fuel, floatText);
    assert w == Render(j);
    assert w[0] as int == 91 && w[|w| - 1] as int == 93;
    TrimmedAlready(w);
    ArrayDispatch(w);
    WholeText(j);
  }
}
