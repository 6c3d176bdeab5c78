/** The canonical printer behind the pinned protocol hash, and a parser that inverts it. */
module CanonicalJson {
  import opened Json

  // ---- what is printed ----

  function HexDigit(n: nat): char
    requires n < 16
  {
    "0123456789abcdef"[n]
  }

  /** One character inside a JSON string, section 7 of RFC 8259. */
  function Escape(c: char): string {
    if c == '\"' then "\\\""
    else if c == '\\' then "\\\\"
    else if c == '\U{8}' then "\\b"
    else if c == '\t' then "\\t"
    else if c == '\n' then "\\n"
    else if c == '\U{C}' then "\\f"
    else if c == '\r' then "\\r"
    else if c < ' ' then "\\u00" + [HexDigit(c as int / 16), HexDigit(c as int % 16)]
    else [c]
  }

  function EscapeAll(s: string): string {
    if s == "" then "" else Escape(s[0]) + EscapeAll(s[1..])
  }

  function PrintString(s: string): string {
    "\"" + EscapeAll(s) + "\""
  }

  function Print(v: Json): string
    decreases v, 1, 0
  {
    match v
    case Null => "null"
    case Bool(b) => if b then "true" else "false"
    case Num(n) => NumberText(n)
    case Str(s) => PrintString(s)
    case Arr(items) => "[" + PrintList(items) + "]"
    case Obj(members) => "{" + PrintMemberList(v, SortedKeys(members.Keys)) + "}"
  }

  function PrintList(items: seq<Json>): string
    decreases items, 0, 1
  {
    if items == [] then "" else Print(items[0]) + PrintItems(items[1..])
  }

  /** The remaining items of an array, each after its comma. */
  function PrintItems(items: seq<Json>): string
    decreases items, 0, 0
  {
    if items == [] then "" else "," + Print(items[0]) + PrintItems(items[1..])
  }

  function PrintMember(v: Json, name: string): string
    requires v.Obj? && name in v.members
    decreases v, 0, 0
  {
    PrintString(name) + ":" + Print(v.members[name])
  }

  function PrintMemberList(v: Json, names: seq<string>): string
    requires v.Obj? && forall i | 0 <= i < |names| :: names[i] in v.members
    decreases v, 0, 2 + |names|
  {
    if names == [] then "" else PrintMember(v, names[0]) + PrintMembers(v, names[1..])
  }

  /** The remaining members of an object, each after its comma. */
  function PrintMembers(v: Json, names: seq<string>): string
    requires v.Obj? && forall i | 0 <= i < |names| :: names[i] in v.members
    decreases v, 0, 1 + |names|
  {
    if names == [] then "" else "," + PrintMember(v, names[0]) + PrintMembers(v, names[1..])
  }

  /** Section 7 of RFC 8259: quotation mark, reverse solidus and control characters are escaped, the
      latter by a letter where there is one and else by their number in four hexadecimal digits. */
  lemma EscapeTable(c: char)
    ensures c >= ' ' && c != '\"' && c != '\\' ==> Escape(c) == [c]
    ensures c == '\"' || c == '\\' ==> Escape(c) == ['\\', c]
    ensures c as int == 8 ==> Escape(c) == ['\\', 'b']
    ensures c as int == 9 ==> Escape(c) == ['\\', 't']
    ensures c as int == 10 ==> Escape(c) == ['\\', 'n']
    ensures c as int == 12 ==> Escape(c) == ['\\', 'f']
    ensures c as int == 13 ==> Escape(c) == ['\\', 'r']
    ensures c as int < 8 || c as int == 11 || 14 <= c as int < 32 ==>
      Escape(c) == ['\\', 'u', '0', '0', (48 + c as int / 16) as char,
                    (if c as int % 16 < 10 then 48 + c as int % 16 else 87 + c as int % 16) as char]
  {
  }

  lemma Assoc(a: string, b: string, c: string)
    ensures (a + b) + c == a + (b + c)
  {
  }

  lemma Assoc4(a: string, b: string, c: string, d: string)
    ensures ((a + b) + c) + d == a + ((b + c) + d)
  {
  }

  // ---- the printer itself ----

  class Output {
    var text: string

    constructor ()
      ensures text == ""
    {
      text := "";
    }

    method Append(s: string)
      modifies this
      ensures text == old(text) + s
    {
      text := text + s;
    }
  }

  method WriteCanonicalJson(value: Json, output: Output)
    modifies output
    ensures output.text == old(output.text) + Print(value)
    decreases value, 1
  {
    match value
    case Arr(items) => WriteArray(items, output);
    case Obj(members) => WriteObject(value, output);
    case _ => output.Append(Print(value));
  }

  method WriteArray(items: seq<Json>, output: Output)
    modifies output
    ensures output.text == old(output.text) + Print(Arr(items))
    decreases items, 0
  {
    output.Append("[");
    ghost var goal := output.text + PrintList(items);
    var index := 0;
    while index < |items|
      invariant index <= |items|
      invariant goal == output.text + (if index == 0 then PrintList(items) else PrintItems(items[index..]))
    {
      assert items[index..][1..] == items[index + 1..];
      Assoc4(output.text, ",", Print(items[index]), PrintItems(items[index + 1..]));
      Assoc(output.text, Print(items[index]), PrintItems(items[index + 1..]));
      if index != 0 { output.Append(","); }
      WriteCanonicalJson(items[index], output);
      index := index + 1;
    }
    Assoc4(old(output.text), "[", PrintList(items), "]");
    output.Append("]");
  }

  method WriteObject(value: Json, output: Output)
    requires value.Obj?
    modifies output
    ensures output.text == old(output.text) + Print(value)
    decreases value, 0, 2
  {
    var keys := SortedKeys(value.members.Keys);
    Assoc4(output.text, "{", PrintMemberList(value, keys), "}");
    output.Append("{");
    WriteMembers(value, keys, output);
    output.Append("}");
  }

  method WriteMembers(value: Json, keys: seq<string>, output: Output)
    requires value.Obj? && forall i | 0 <= i < |keys| :: keys[i] in value.members
    modifies output
    ensures output.text == old(output.text) + PrintMemberList(value, keys)
    decreases value, 0, 1
  {
    ghost var goal := output.text + PrintMemberList(value, keys);
    var index := 0;
    while index < |keys|
      invariant index <= |keys|
      invariant goal == output.text
        + (if index == 0 then PrintMemberList(value, keys) else PrintMembers(value, keys[index..]))
    {
      ghost var member, next := PrintMember(value, keys[index]), PrintMembers(value, keys[index + 1..]);
      assert keys[index..][1..] == keys[index + 1..];
      Assoc4(output.text, ",", member, next);
      Assoc(output.text, member, next);
      if index != 0 { output.Append(","); }
      WriteMember(value, keys[index], output);
      index := index + 1;
    }
    assert PrintMembers(value, keys[index..]) == "";
  }

  method WriteMember(value: Json, key: string, output: Output)
    requires value.Obj? && key in value.members
    modifies output
    ensures output.text == old(output.text) + PrintMember(value, key)
    decreases value, 0, 0
  {
    Assoc4(output.text, PrintString(key), ":", Print(value.members[key]));
    output.Append(PrintString(key));
    output.Append(":");
    WriteCanonicalJson(value.members[key], output);
  }

  // ---- a parser ----

  function HexValue(c: char): Option<nat> {
    if '0' <= c <= '9' then Some(c as int - '0' as int)
    else if 'a' <= c <= 'f' then Some(c as int - 'a' as int + 10)
    else None
  }

  /** The string contents up to the closing quote, and the text after it. */
  function ParseString(s: string): (r: Option<(string, string)>)
    ensures r.Some? ==> |r.value.1| < |s|
  {
    if s == "" then None
    else if s[0] == '\"' then Some(("", s[1..]))
    else
      var (c, t) :- ParseChar(s);
      var (cs, rest) :- ParseString(t);
      Some(([c] + cs, rest))
  }

  function ParseChar(s: string): (r: Option<(char, string)>)
    requires s != ""
    ensures r.Some? ==> |r.value.1| < |s|
  {
    if s[0] != '\\' then (if s[0] < ' ' then None else Some((s[0], s[1..])))
    else if |s| < 2 then None
    else match s[1]
      case '\"' => Some(('\"', s[2..]))
      case '\\' => Some(('\\', s[2..]))
      case 'b' => Some(('\U{8}', s[2..]))
      case 't' => Some(('\t', s[2..]))
      case 'n' => Some(('\n', s[2..]))
      case 'f' => Some(('\U{C}', s[2..]))
      case 'r' => Some(('\r', s[2..]))
      case 'u' =>
        if |s| < 6 || s[2] != '0' || s[3] != '0' then None
        else
          var high :- HexValue(s[4]);
          var low :- HexValue(s[5]);
          Some(((16 * high + low) as char, s[6..]))
      case _ => None
  }

  function TakeDigits(s: string): (r: (string, string))
    ensures |r.0| + |r.1| == |s|
  {
    if s == "" || !IsDigit(s[0]) then ("", s)
    else
      var (ds, rest) := TakeDigits(s[1..]);
      ([s[0]] + ds, rest)
  }

  function ParseFraction(s: string): (r: (Option<string>, string))
    ensures |r.1| <= |s|
  {
    if s == "" || s[0] != '.' then (None, s)
    else
      var (ds, rest) := TakeDigits(s[1..]);
      (Some(ds), rest)
  }

  function ParseExponent(s: string): (r: (Option<Exponent>, string))
    ensures |r.1| <= |s|
  {
    if s == "" || (s[0] != 'e' && s[0] != 'E') then (None, s)
    else
      var sign := if |s| > 1 && s[1] == '+' then Plus else if |s| > 1 && s[1] == '-' then Minus else Unsigned;
      var (ds, rest) := TakeDigits(if sign == Unsigned then s[1..] else s[2..]);
      (Some(Exponent(s[0] == 'E', sign, ds)), rest)
  }

  function ParseNumber(s: string): (r: Option<(Json, string)>)
    requires s != ""
    ensures r.Some? ==> |r.value.1| < |s|
  {
    var negative := s[0] == '-';
    var (whole, s1) := TakeDigits(if negative then s[1..] else s);
    var (fraction, s2) := ParseFraction(s1);
    var (exponent, rest) := ParseExponent(s2);
    var token := NumberToken(negative, whole, fraction, exponent);
    if |rest| < |s| && token.WellFormed() then Some((Num(token), rest)) else None
  }

  function ParseValue(s: string): (r: Option<(Json, string)>)
    ensures r.Some? ==> |r.value.1| < |s|
    decreases |s|, 0
  {
    if "null" <= s then Some((Null, s[4..]))
    else if "true" <= s then Some((Bool(true), s[4..]))
    else if "false" <= s then Some((Bool(false), s[5..]))
    else if s == "" then None
    else if s[0] == '\"' then
      var (text, rest) :- ParseString(s[1..]);
      Some((Str(text), rest))
    else if s[0] == '[' then
      if |s| > 1 && s[1] == ']' then Some((Arr([]), s[2..]))
      else
        var (items, rest) :- ParseItems(s[1..]);
        Some((Arr(items), rest))
    else if s[0] == '{' then
      if |s| > 1 && s[1] == '}' then Some((Obj(map[]), s[2..]))
      else
        var (members, rest) :- ParseMembers(s[1..]);
        Some((Obj(members), rest))
    else ParseNumber(s)
  }

  /** One or more comma-separated values and the closing bracket. */
  function ParseItems(s: string): (r: Option<(seq<Json>, string)>)
    ensures r.Some? ==> |r.value.1| < |s|
    decreases |s|, 1
  {
    var (item, t) :- ParseValue(s);
    if t == "" then None
    else if t[0] == ']' then Some(([item], t[1..]))
    else if t[0] == ',' then
      var (items, rest) :- ParseItems(t[1..]);
      Some(([item] + items, rest))
    else None
  }

  /** One or more comma-separated members and the closing brace. */
  function ParseMembers(s: string): (r: Option<(map<string, Json>, string)>)
    ensures r.Some? ==> |r.value.1| < |s|
    decreases |s|, 1
  {
    if s == "" || s[0] != '\"' then None
    else
      var (name, t) :- ParseString(s[1..]);
      if t == "" || t[0] != ':' then None
      else
        var (value, u) :- ParseValue(t[1..]);
        if u == "" then None
        else if u[0] == '}' then Some((map[name := value], u[1..]))
        else if u[0] == ',' then
          var (members, rest) :- ParseMembers(u[1..]);
          Some((map[name := value] + members, rest))
        else None
  }

  // ---- the parser inverts the printer ----

  predicate NumberChar(c: char) {
    IsDigit(c) || c in ".eE+-"
  }

  /** What may follow a printed value without running into a number. */
  predicate Follows(rest: string) {
    rest == "" || !NumberChar(rest[0])
  }

  lemma ParseHexEscape(c: char, t: string)
    requires |Escape(c)| == 6
    ensures ParseChar(Escape(c) + t) == Some((c, t))
  {
    var s := Escape(c) + t;
    var high, low := c as int / 16, c as int % 16;
    assert s[0] == '\\' && s[1] == 'u' && s[2] == '0' && s[3] == '0';
    assert s[4] == HexDigit(high) && s[5] == HexDigit(low) && s[6..] == t;
    assert HexValue(HexDigit(high)) == Some(high) && HexValue(HexDigit(low)) == Some(low);
  }

  lemma ParseShortEscape(c: char, t: string)
    requires |Escape(c)| == 2
    ensures ParseChar(Escape(c) + t) == Some((c, t))
  {
    var s := Escape(c) + t;
    assert s[0] == '\\' && s[1] == Escape(c)[1] && s[2..] == t;
  }

  lemma ParseCharEscape(c: char, t: string)
    ensures Escape(c) != "" && Escape(c)[0] != '\"'
    ensures ParseChar(Escape(c) + t) == Some((c, t))
  {
    hide HexDigit;
    if |Escape(c)| == 2 {
      ParseShortEscape(c, t);
    } else if |Escape(c)| == 6 {
      ParseHexEscape(c, t);
    } else {
      assert Escape(c) == [c] && (Escape(c) + t)[1..] == t;
    }
  }

  lemma {:induction false} ParseStringPrinted(text: string, rest: string)
    ensures ParseString(EscapeAll(text) + "\"" + rest) == Some((text, rest))
  {
    var s := EscapeAll(text) + "\"" + rest;
    if text == "" {
      assert s[1..] == rest;
    } else {
      var t := EscapeAll(text[1..]) + "\"" + rest;
      assert s == Escape(text[0]) + t;
      ParseCharEscape(text[0], t);
      ParseStringPrinted(text[1..], rest);
      assert text == [text[0]] + text[1..];
    }
  }

  lemma {:induction false} TakeDigitsOf(ds: string, rest: string)
    requires AllDigits(ds) && (rest == "" || !IsDigit(rest[0]))
    ensures TakeDigits(ds + rest) == (ds, rest)
  {
    if ds == "" {
      assert ds + rest == rest;
    } else {
      assert (ds + rest)[1..] == ds[1..] + rest;
      TakeDigitsOf(ds[1..], rest);
      assert ds == [ds[0]] + ds[1..];
    }
  }

  lemma ParseExponentOf(e: Option<Exponent>, rest: string)
    requires e.Some? ==> e.value.digits != "" && AllDigits(e.value.digits)
    requires Follows(rest)
    ensures ParseExponent(ExponentText(e) + rest) == (e, rest)
  {
    var s := ExponentText(e) + rest;
    if e.None? {
      assert s == rest;
    } else {
      ParseExponentDigits(e.value, e.value.digits + rest, rest);
      Assoc((if e.value.upper then "E" else "e") + SignText(e.value.sign), e.value.digits, rest);
    }
  }

  lemma ParseExponentDigits(e: Exponent, tail: string, rest: string)
    requires tail == e.digits + rest && e.digits != "" && AllDigits(e.digits) && Follows(rest)
    ensures ParseExponent((if e.upper then "E" else "e") + SignText(e.sign) + tail) == (Some(e), rest)
  {
    var s := (if e.upper then "E" else "e") + SignText(e.sign) + tail;
    TakeDigitsOf(e.digits, rest);
    assert IsDigit(tail[0]) && |tail| > 0;
    match e.sign
    case Unsigned => assert s[1..] == tail; assert s[1] == tail[0];
    case Plus => assert s[2..] == tail;
    case Minus => assert s[2..] == tail;
  }

  lemma ParseFractionOf(f: Option<string>, rest: string)
    requires f.Some? ==> AllDigits(f.value)
    requires rest == "" || (!IsDigit(rest[0]) && rest[0] != '.')
    ensures ParseFraction(FractionText(f) + rest) == (f, rest)
  {
    var s := FractionText(f) + rest;
    if f.None? {
      assert s == rest;
    } else {
      assert s[1..] == f.value + rest;
      TakeDigitsOf(f.value, rest);
    }
  }

  lemma ParseNumberParts(n: Number, s: string, s0: string, s1: string, s2: string, rest: string)
    requires s != "" && (if s[0] == '-' then n.negative && s[1..] == s0 else !n.negative && s == s0)
    requires TakeDigits(s0) == (n.whole, s1)
    requires ParseFraction(s1) == (n.fraction, s2)
    requires ParseExponent(s2) == (n.exponent, rest)
    requires |rest| < |s|
    ensures ParseNumber(s) == Some((Num(n), rest))
  {
    assert NumberToken(n.negative, n.whole, n.fraction, n.exponent) == n;
  }

  lemma ParseNumberOf(n: Number, rest: string)
    requires Follows(rest)
    ensures ParseValue(NumberText(n) + rest) == Some((Num(n), rest))
  {
    hide ParseFraction, ParseExponent, TakeDigits, ParseNumber, ParseValue;
    var s2 := ExponentText(n.exponent) + rest;
    var s1 := FractionText(n.fraction) + s2;
    var s0 := n.whole + s1;
    var sign := if n.negative then "-" else "";
    var s := sign + s0;
    Assoc(MantissaText(n), ExponentText(n.exponent), rest);
    Assoc4(sign, n.whole, FractionText(n.fraction), s2);
    Assoc(n.whole, FractionText(n.fraction), s2);
    assert s == NumberText(n) + rest;
    assert IsDigit(s0[0]) by { assert s0[0] == n.whole[0]; }
    ParseExponentOf(n.exponent, rest);
    ParseFractionOf(n.fraction, s2);
    TakeDigitsOf(n.whole, s1);
    assert if n.negative then s[0] == '-' && s[1..] == s0 else s == s0;
    ParseNumberParts(n, s, s0, s1, s2, rest);
    ParseValueOfNumber(s);
  }

  lemma ParseValueOfNumber(s: string)
    requires s != "" && (IsDigit(s[0]) || s[0] == '-')
    ensures ParseValue(s) == ParseNumber(s)
  {
    assert !("null" <= s) && !("true" <= s) && !("false" <= s);
  }

  lemma {:induction false} ParsePrinted(v: Json, rest: string)
    requires Follows(rest)
    ensures ParseValue(Print(v) + rest) == Some((v, rest))
    decreases v, 2, 0
  {
    match v
    case Null => assert (Print(v) + rest)[4..] == rest;
    case Bool(b) => ParsePrintedBool(b, rest);
    case Num(n) => ParseNumberOf(n, rest);
    case Str(text) => ParsePrintedString(text, rest);
    case Arr(items) => ParsePrintedArray(items, rest);
    case Obj(members) => ParsePrintedObject(v, rest);
  }

  lemma ParsePrintedString(text: string, rest: string)
    ensures ParseValue(Print(Str(text)) + rest) == Some((Str(text), rest))
  {
    hide EscapeAll, ParseString;
    var s := Print(Str(text)) + rest;
    ParseStringPrinted(text, rest);
    assert s[1..] == EscapeAll(text) + "\"" + rest;
    assert s[0] == '\"';
  }

  lemma {:induction false} ParsePrintedArray(items: seq<Json>, rest: string)
    ensures ParseValue(Print(Arr(items)) + rest) == Some((Arr(items), rest))
    decreases items, 1, 0
  {
    if items == [] {
      ParseEmpty(rest);
    } else {
      PrintStart(items[0]);
      ParsePrintedItems(items, rest);
      Assoc4("[", PrintList(items), "]", rest);
      ParseBracketed(PrintList(items) + "]" + rest);
    }
  }

  lemma {:induction false} ParsePrintedObject(v: Json, rest: string)
    requires v.Obj?
    ensures ParseValue(Print(v) + rest) == Some((v, rest))
    decreases v, 1, 0
  {
    hide Print, PrintMemberList, ParseValue, ParseMembers;
    var names := SortedKeys(v.members.Keys);
    ObjectText(v, rest);
    if names == [] {
      NoMembers(v);
      ParseEmpty(rest);
    } else {
      ParsePrintedMembers(v, names, rest);
      ParseBraced(PrintMemberList(v, names) + "}" + rest);
      AllMembers(v.members, names);
    }
  }

  lemma ObjectText(v: Json, rest: string)
    requires v.Obj?
    ensures Print(v) + rest == "{" + (PrintMemberList(v, SortedKeys(v.members.Keys)) + "}" + rest)
  {
    hide PrintMemberList;
    Assoc4("{", PrintMemberList(v, SortedKeys(v.members.Keys)), "}", rest);
  }

  lemma NoMembers(v: Json)
    requires v.Obj? && SortedKeys(v.members.Keys) == []
    ensures v.members == map[] && Print(v) == "{" + "" + "}"
  {
    assert v.members.Keys == {};
  }

  lemma AllMembers(members: map<string, Json>, names: seq<string>)
    requires Lists(names, members.Keys)
    ensures (map k | k in names :: members[k]) == members
  {
  }

  lemma ParsePrintedBool(b: bool, rest: string)
    ensures ParseValue(Print(Bool(b)) + rest) == Some((Bool(b), rest))
  {
    var s := Print(Bool(b)) + rest;
    assert if b then s[..4] == "true" && s[4..] == rest else s[..5] == "false" && s[5..] == rest;
    assert s[0] == if b then 't' else 'f';
  }

  lemma ParseEmpty(rest: string)
    ensures ParseValue("[" + "" + "]" + rest) == Some((Arr([]), rest))
    ensures ParseValue("{" + "" + "}" + rest) == Some((Obj(map[]), rest))
  {
    assert ("[" + "" + "]" + rest)[2..] == rest;
    assert ("{" + "" + "}" + rest)[2..] == rest;
  }

  lemma ParseBracketed(t: string)
    requires t != "" && t[0] != ']'
    ensures ParseValue("[" + t) == match ParseItems(t) case None => None case Some(r) => Some((Arr(r.0), r.1))
  {
    assert ("[" + t)[1..] == t;
    assert ("[" + t)[0] == '[' && ("[" + t)[1] == t[0];
  }

  lemma ParseBraced(t: string)
    requires t != "" && t[0] != '}'
    ensures ParseValue("{" + t) == match ParseMembers(t) case None => None case Some(r) => Some((Obj(r.0), r.1))
  {
    assert ("{" + t)[1..] == t;
    assert ("{" + t)[0] == '{' && ("{" + t)[1] == t[0];
  }

  lemma PrintStart(v: Json)
    ensures Print(v) != "" && Print(v)[0] != ']'
  {
    if v.Num? { assert IsDigit(v.n.whole[0]); }
  }

  /** What follows the first of some printed items. */
  ghost function AfterItem(items: seq<Json>, rest: string): string
    requires items != []
  {
    if |items| == 1 then "]" + rest else "," + (PrintList(items[1..]) + "]" + rest)
  }

  lemma ItemsText(items: seq<Json>, rest: string)
    requires items != []
    ensures PrintList(items) + "]" + rest == Print(items[0]) + AfterItem(items, rest)
  {
    var tail := PrintItems(items[1..]);
    Assoc4(Print(items[0]), tail, "]", rest);
    if |items| > 1 {
      assert tail == "," + PrintList(items[1..]) by {
        Assoc(",", Print(items[1]), PrintItems(items[1..][1..]));
      }
      Assoc4(",", PrintList(items[1..]), "]", rest);
    } else {
      assert tail + "]" == "]";
    }
  }

  lemma {:induction false} ParsePrintedItems(items: seq<Json>, rest: string)
    requires items != []
    ensures ParseItems(PrintList(items) + "]" + rest) == Some((items, rest))
    decreases items, 0, 0
  {
    var after := AfterItem(items, rest);
    ParsePrinted(items[0], after);
    ItemsText(items, rest);
    if |items| > 1 { ParsePrintedItems(items[1..], rest); }
    ItemsStep(items, PrintList(items) + "]" + rest, rest);
  }

  lemma ItemsStep(items: seq<Json>, s: string, rest: string)
    requires items != [] && ParseValue(s) == Some((items[0], AfterItem(items, rest)))
    requires |items| > 1 ==> ParseItems(PrintList(items[1..]) + "]" + rest) == Some((items[1..], rest))
    ensures ParseItems(s) == Some((items, rest))
  {
    var after := AfterItem(items, rest);
    if |items| == 1 {
      assert after[0] == ']' && after[1..] == rest && items == [items[0]];
    } else {
      assert after[0] == ',' && after[1..] == PrintList(items[1..]) + "]" + rest;
      assert items == [items[0]] + items[1..];
    }
  }

  ghost predicate Names(v: Json, names: seq<string>) {
    v.Obj? && names != [] && Sorted(names) && forall i | 0 <= i < |names| :: names[i] in v.members
  }

  /** What follows the first of some printed members. */
  ghost function AfterMember(v: Json, names: seq<string>, rest: string): string
    requires Names(v, names)
  {
    if |names| == 1 then "}" + rest else "," + (PrintMemberList(v, names[1..]) + "}" + rest)
  }

  lemma MembersText(v: Json, names: seq<string>, rest: string)
    requires Names(v, names)
    ensures PrintMemberList(v, names) + "}" + rest
      == "\"" + (EscapeAll(names[0]) + "\"" + (":" + (Print(v.members[names[0]]) + AfterMember(v, names, rest))))
  {
    var tail, after := PrintMembers(v, names[1..]), AfterMember(v, names, rest);
    var name, value := PrintString(names[0]), Print(v.members[names[0]]);
    Assoc4(PrintMember(v, names[0]), tail, "}", rest);
    if |names| > 1 {
      assert tail == "," + PrintMemberList(v, names[1..]) by {
        Assoc(",", PrintMember(v, names[1]), PrintMembers(v, names[1..][1..]));
      }
      Assoc4(",", PrintMemberList(v, names[1..]), "}", rest);
    } else {
      assert tail + "}" == "}";
    }
    Assoc4(name, ":", value, after);
    Assoc(":", value, after);
    Assoc4("\"", EscapeAll(names[0]), "\"", ":" + (value + after));
  }

  lemma {:induction false} ParsePrintedMembers(v: Json, names: seq<string>, rest: string)
    requires Names(v, names)
    ensures ParseMembers(PrintMemberList(v, names) + "}" + rest) == Some((map k | k in names :: v.members[k], rest))
    ensures (PrintMemberList(v, names) + "}" + rest)[0] == '\"'
    decreases v, 0, |names|
  {
    var after := AfterMember(v, names, rest);
    var value := Print(v.members[names[0]]) + after;
    MembersText(v, names, rest);
    ParseStringPrinted(names[0], ":" + value);
    ParsePrinted(v.members[names[0]], after);
    if |names| > 1 { ParsePrintedMembers(v, names[1..], rest); }
    MembersStep(v, names, PrintMemberList(v, names) + "}" + rest, value, rest);
  }

  lemma MembersStep(v: Json, names: seq<string>, s: string, value: string, rest: string)
    requires Names(v, names)
    requires s == "\"" + (EscapeAll(names[0]) + "\"" + (":" + value))
    requires ParseString(EscapeAll(names[0]) + "\"" + (":" + value)) == Some((names[0], ":" + value))
    requires ParseValue(value) == Some((v.members[names[0]], AfterMember(v, names, rest)))
    requires |names| > 1 ==>
      ParseMembers(PrintMemberList(v, names[1..]) + "}" + rest) == Some((map k | k in names[1..] :: v.members[k], rest))
    ensures ParseMembers(s) == Some((map k | k in names :: v.members[k], rest))
    ensures s[0] == '\"'
  {
    hide Print, PrintMemberList, EscapeAll, ParseString, ParseValue;
    var name, after := names[0], AfterMember(v, names, rest);
    assert s[1..] == EscapeAll(name) + "\"" + (":" + value);
    assert (":" + value)[1..] == value;
    if |names| == 1 {
      assert after[0] == '}' && after[1..] == rest;
      assert (map k | k in names :: v.members[k]) == map[name := v.members[name]];
    } else {
      assert after[0] == ',' && after[1..] == PrintMemberList(v, names[1..]) + "}" + rest;
      assert (map k | k in names :: v.members[k])
        == map[name := v.members[name]] + (map k | k in names[1..] :: v.members[k]);
    }
  }

  /** Two values print the same text exactly when they are the same value. */
  lemma PrintInjective(a: Json, b: Json)
    ensures Print(a) == Print(b) <==> a == b
  {
    ParsePrinted(a, "");
    ParsePrinted(b, "");
    assert Print(a) + "" == Print(a) && Print(b) + "" == Print(b);
  }

  // ---- the text of small values ----

  lemma LiteralText(n: Number)
    ensures Print(Null) == "null" && Print(Bool(true)) == "true" && Print(Bool(false)) == "false"
    ensures Print(Num(n)) == NumberText(n)
    ensures Print(Str("")) == "\"\"" && Print(Arr([])) == "[]" && Print(Obj(map[])) == "{}"
  {
    var none: map<string, Json> := map[];
    assert none.Keys == {};
    assert SortedKeys(none.Keys) == [];
  }

  /** Items stand in order between brackets, with a comma and nothing else between them. */
  lemma PairText(a: Json, b: Json)
    ensures Print(Arr([a])) == "[" + Print(a) + "]"
    ensures Print(Arr([a, b])) == "[" + Print(a) + "," + Print(b) + "]"
  {
    hide Print, PrintList;
    ArrayText([a]);
    ArrayText([a, b]);
    ListText(a, b);
    PairWrapped(Print(a), Print(b));
  }

  lemma ArrayText(items: seq<Json>)
    ensures Print(Arr(items)) == "[" + PrintList(items) + "]"
  {
    hide PrintList;
  }

  lemma ListText(a: Json, b: Json)
    ensures PrintList([a]) == Print(a) && PrintList([a, b]) == Print(a) + ("," + Print(b))
  {
    hide Print, PrintItems;
    NoMoreItems();
    OneItem(b);
    assert [a][1..] == [] && [a, b][1..] == [b];
    assert Print(a) + "" == Print(a);
  }

  lemma PairWrapped(x: string, y: string)
    ensures "[" + (x + ("," + y)) + "]" == "[" + x + "," + y + "]"
  {
  }

  lemma NoMoreItems()
    ensures PrintItems([]) == ""
  {
  }

  lemma OneItem(b: Json)
    ensures PrintItems([b]) == "," + Print(b)
  {
    hide Print;
    NoMoreItems();
    assert [b][1..] == [];
    assert ("," + Print(b)) + "" == "," + Print(b);
  }

  /** Members stand in order of their names between braces, whichever was put in first. */
  lemma PairMembersText(first: string, a: Json, second: string, b: Json)
    requires Before(first, second) && first != second
    ensures Print(Obj(map[second := b, first := a]))
      == "{" + PrintString(first) + ":" + Print(a) + "," + PrintString(second) + ":" + Print(b) + "}"
  {
    hide PrintMember, PrintMembers, PrintMemberList, Before, PrintString, SortedKeys;
    var v := Obj(map[second := b, first := a]);
    PairKeys(v.members, first, second);
    ObjectText(v, "");
    PairList(v, first, second);
    MemberText(v, first);
    MemberText(v, second);
    var list := PrintMemberList(v, [first, second]);
    PairJoined(PrintString(first), Print(a), PrintString(second), Print(b), Print(v), list);
  }

  lemma PairKeys(m: map<string, Json>, first: string, second: string)
    requires Before(first, second) && first != second && m.Keys == {first, second}
    ensures SortedKeys(m.Keys) == [first, second]
  {
    hide Before, Leq, SortedKeys;
    LeqIsBefore(first, second);
    var names := [first, second];
    assert names[0] == first && names[1] == second;
    SortedKeysUnique(names, m.Keys);
  }

  lemma MemberText(v: Json, name: string)
    requires v.Obj? && name in v.members
    ensures PrintMember(v, name) == PrintString(name) + ":" + Print(v.members[name])
  {
  }

  lemma PairList(v: Json, first: string, second: string)
    requires v.Obj? && first in v.members && second in v.members
    ensures PrintMemberList(v, [first, second]) == PrintMember(v, first) + ("," + PrintMember(v, second))
  {
    hide PrintMember;
    assert [first, second][1..] == [second] && [second][1..] == [];
    assert PrintMembers(v, []) == "";
    assert PrintMembers(v, [second]) == ("," + PrintMember(v, second)) + "";
  }

  lemma PairJoined(m: string, x: string, n: string, y: string, whole: string, list: string)
    requires whole + "" == "{" + (list + "}" + "") && list == (m + ":" + x) + ("," + (n + ":" + y))
    ensures whole == "{" + m + ":" + x + "," + n + ":" + y + "}"
  {
    assert whole + "" == whole && list + "}" + "" == list + "}";
    assert list == m + ":" + x + "," + n + ":" + y;
  }
}
