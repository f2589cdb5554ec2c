/**
 * The JSON text form of an entry.  Entry.to_json is json.dumps applied to
 * Entry.to_dict with Python's default settings: members separated by ", ",
 * keys from values by ": ", no other whitespace.  Quote, backslash, \b, \f,
 * \n, \r and \t get two-character escapes; every other character outside
 * printable ASCII is written as a \u escape (a surrogate pair above U+FFFF).
 * Only the value shapes an entry uses are modelled: strings, arrays, objects.
 *
 * The parser below is the inverse of that serialiser: it reads exactly the
 * canonical text (no optional whitespace), which is what the round-trip law
 * needs.
 */
module Json {
  import opened Wrappers

  datatype Value = Str(s: string) | Arr(items: seq<Value>) | Obj(members: seq<Member>)

  /** One key/value pair of an object; objects keep their members in order. */
  datatype Member = Member(key: string, value: Value)

  // ---------------------------------------------------------------------
  // Hexadecimal digits of \u escapes (json.dumps writes lower case)
  // ---------------------------------------------------------------------

  function HexDigit(d: nat): (c: char)
    requires d < 16
  {
    if d < 10 then ('0' as int + d) as char else ('a' as int + d - 10) as char
  }

  /** The value of a hexadecimal digit of either case. */
  function HexValue(c: char): (r: Option<nat>)
    ensures r.Some? ==> r.value < 16
  {
    if '0' <= c <= '9' then Some(c as int - '0' as int)
    else if 'a' <= c <= 'f' then Some(c as int - 'a' as int + 10)
    else if 'A' <= c <= 'F' then Some(c as int - 'A' as int + 10)
    else None
  }

  /** Four hexadecimal digits, most significant first, as '\\u{0:04x}' writes them. */
  function Hex4(n: nat): (r: string)
    requires n < 0x10000
    ensures |r| == 4
  {
    var q1 := n / 16;
    var q2 := q1 / 16;
    [HexDigit(q2 / 16), HexDigit(q2 % 16), HexDigit(q1 % 16), HexDigit(n % 16)]
  }

  /** Reads four hexadecimal digits at the front of s. */
  function ParseHex4(s: string): (r: Option<nat>)
    ensures r.Some? ==> |s| >= 4 && r.value < 0x10000
  {
    if |s| < 4 then None
    else match (HexValue(s[0]), HexValue(s[1]), HexValue(s[2]), HexValue(s[3]))
      case (Some(a), Some(b), Some(c), Some(d)) => Some(a * 0x1000 + b * 0x100 + c * 0x10 + d)
      case _ => None
  }

  lemma Hex4RoundTrip(n: nat, t: string)
    requires n < 0x10000
    ensures ParseHex4(Hex4(n) + t) == Some(n)
  {
    var q1 := n / 16;
    var q2 := q1 / 16;
    assert n == 16 * q1 + n % 16;
    assert q1 == 16 * q2 + q1 % 16;
    assert q2 == 16 * (q2 / 16) + q2 % 16;
    var s := Hex4(n) + t;
    assert HexValue(s[0]) == Some(q2 / 16);
    assert HexValue(s[1]) == Some(q2 % 16);
    assert HexValue(s[2]) == Some(q1 % 16);
    assert HexValue(s[3]) == Some(n % 16);
  }

  // ---------------------------------------------------------------------
  // Strings
  // ---------------------------------------------------------------------

  /** The characters json.dumps writes unescaped: printable ASCII except '"' and '\\'. */
  predicate Plain(c: char) {
    ' ' <= c <= '~' && c != '"' && c != '\\'
  }

  /** The letter of the two-character escape json.dumps writes for c, if it has one. */
  function ShortEscape(c: char): (r: Option<char>)
  {
    if c == '"' then Some('"')
    else if c == '\\' then Some('\\')
    else if c == '\n' then Some('n')
    else if c == '\r' then Some('r')
    else if c == '\t' then Some('t')
    else if c as int == 0x08 then Some('b')
    else if c as int == 0x0C then Some('f')
    else None
  }

  /** The character a two-character escape stands for (JSON also allows an escaped '/'). */
  function ShortUnescape(l: char): (r: Option<char>)
  {
    if l == '"' then Some('"')
    else if l == '\\' then Some('\\')
    else if l == '/' then Some('/')
    else if l == 'b' then Some(0x08 as char)
    else if l == 'f' then Some(0x0C as char)
    else if l == 'n' then Some('\n')
    else if l == 'r' then Some('\r')
    else if l == 't' then Some('\t')
    else None
  }

  /** The escaped form of one character inside a string literal. */
  function EscapeChar(c: char): (r: string)
    ensures |r| > 0 && r[0] != '"'
    ensures Plain(c) <==> r == [c]
  {
    match ShortEscape(c)
    case Some(l) => ['\\', l]
    case None =>
      if ' ' <= c <= '~' then [c]
      else if c as int < 0x10000 then ['\\', 'u'] + Hex4(c as int)
      else
        // above U+FFFF: a UTF-16 surrogate pair, high half first
        var m := c as int - 0x10000;
        ['\\', 'u'] + Hex4(0xD800 + m / 0x400) + ['\\', 'u'] + Hex4(0xDC00 + m % 0x400)
  }

  function EscapeString(s: string): (r: string)
  {
    if |s| == 0 then "" else EscapeChar(s[0]) + EscapeString(s[1..])
  }

  /** A string literal: the escaped characters between double quotes. */
  function Quote(s: string): (r: string)
  {
    "\"" + EscapeString(s) + "\""
  }

  /** A string made only of plain characters is written as it is. */
  lemma {:induction false} EscapePlainString(s: string)
    requires forall i :: 0 <= i < |s| ==> Plain(s[i])
    ensures EscapeString(s) == s
  {
    if |s| > 0 {
      EscapePlainString(s[1..]);
      assert s == [s[0]] + s[1..];
    }
  }

  /** Reads the four hex digits after "\u", combining a surrogate pair into one character. */
  function ParseUnicodeEscape(s: string): (r: Option<(char, string)>)
    ensures r.Some? ==> |r.value.1| + 4 <= |s|
  {
    match ParseHex4(s)
    case None => None
    case Some(hi) =>
      if 0xD800 <= hi < 0xDC00 then
        if |s| >= 6 && s[4] == '\\' && s[5] == 'u' then
          match ParseHex4(s[6..])
          case None => None
          case Some(lo) =>
            if 0xDC00 <= lo < 0xE000 then
              Some(((0x10000 + (hi - 0xD800) * 0x400 + (lo - 0xDC00)) as char, s[10..]))
            else None
        else None
      else if 0xDC00 <= hi < 0xE000 then None
      else Some((hi as char, s[4..]))
  }

  /** Reads one character of a string literal's body (an escape or a raw character). */
  function ParseChar(s: string): (r: Option<(char, string)>)
    ensures r.Some? ==> |r.value.1| < |s|
  {
    if |s| == 0 || s[0] == '"' || s[0] as int < 0x20 then None
    else if s[0] != '\\' then Some((s[0], s[1..]))
    else if |s| < 2 then None
    else if s[1] == 'u' then ParseUnicodeEscape(s[2..])
    else
      match ShortUnescape(s[1])
      case Some(c) => Some((c, s[2..]))
      case None => None
  }

  /** Reads a string literal's body up to and including its closing quote. */
  function ParseStringBody(s: string): (r: Option<(string, string)>)
    ensures r.Some? ==> |r.value.1| < |s|
    decreases |s|
  {
    if |s| == 0 then None
    else if s[0] == '"' then Some(("", s[1..]))
    else match ParseChar(s)
      case None => None
      case Some((c, rest)) =>
        match ParseStringBody(rest)
        case None => None
        case Some((body, after)) => Some(([c] + body, after))
  }

  lemma ShortEscapeInverse(c: char)
    requires ShortEscape(c).Some?
    ensures ShortEscape(c).value != 'u' && ShortUnescape(ShortEscape(c).value) == Some(c)
  {
  }

  /** A character below U+10000 written as one \u escape reads back as itself. */
  lemma BmpRoundTrip(c: char, t: string)
    requires c as int < 0x10000
    ensures ParseUnicodeEscape(Hex4(c as int) + t) == Some((c, t))
  {
    Hex4RoundTrip(c as int, t);
    assert (Hex4(c as int) + t)[4..] == t;
  }

  /** A character above U+FFFF written as a surrogate pair reads back as itself. */
  /** The two halves of the surrogate pair for c, and how they combine back into c. */
  lemma SurrogateHalves(c: char)
    requires c as int >= 0x10000
    ensures var m := c as int - 0x10000;
            var hi, lo := 0xD800 + m / 0x400, 0xDC00 + m % 0x400;
            0xD800 <= hi < 0xDC00 && 0xDC00 <= lo < 0xE000 &&
            0x10000 + (hi - 0xD800) * 0x400 + (lo - 0xDC00) == c as int
  {
    var m := c as int - 0x10000;
    assert m == (m / 0x400) * 0x400 + m % 0x400;
  }

  /** Reading a surrogate pair, stated over abstract text. */
  lemma ReadSurrogatePair(s: string, hi: nat, lo: nat)
    requires ParseHex4(s) == Some(hi) && 0xD800 <= hi < 0xDC00
    requires |s| >= 6 && s[4] == '\\' && s[5] == 'u'
    requires ParseHex4(s[6..]) == Some(lo) && 0xDC00 <= lo < 0xE000
    ensures ParseUnicodeEscape(s) == Some(((0x10000 + (hi - 0xD800) * 0x400 + (lo - 0xDC00)) as char, s[10..]))
  {
  }

  /** Text made of four hex digits, a "\\u", four more hex digits, then t. */
  lemma PairLayout(h: string, l: string, t: string)
    requires |h| == 4 && |l| == 4
    ensures var u := h + (['\\', 'u'] + l + t);
            u[4] == '\\' && u[5] == 'u' && u[6..] == l + t && u[10..] == t
  {
    var u := h + (['\\', 'u'] + l + t);
    assert u[6..] == l + t;
    assert (l + t)[4..] == t;
  }

  lemma AstralRoundTrip(c: char, t: string)
    requires c as int >= 0x10000
    ensures var m := c as int - 0x10000;
            ParseUnicodeEscape(Hex4(0xD800 + m / 0x400) + (['\\', 'u'] + Hex4(0xDC00 + m % 0x400) + t)) == Some((c, t))
  {
    var m := c as int - 0x10000;
    SurrogateHalves(c);
    var hi, lo := 0xD800 + m / 0x400, 0xDC00 + m % 0x400;
    var u := Hex4(hi) + (['\\', 'u'] + Hex4(lo) + t);
    Hex4RoundTrip(hi, ['\\', 'u'] + Hex4(lo) + t);
    PairLayout(Hex4(hi), Hex4(lo), t);
    Hex4RoundTrip(lo, t);
    ReadSurrogatePair(u, hi, lo);
  }

  // One step of ParseChar, stated over abstract text.

  lemma ReadRawChar(s: string)
    requires |s| > 0 && s[0] != '"' && s[0] != '\\' && s[0] as int >= 0x20
    ensures ParseChar(s) == Some((s[0], s[1..]))
  {
  }

  lemma ReadShortEscape(s: string)
    requires |s| >= 2 && s[0] == '\\' && s[1] != 'u' && ShortUnescape(s[1]).Some?
    ensures ParseChar(s) == Some((ShortUnescape(s[1]).value, s[2..]))
  {
  }

  lemma ReadUnicodeEscape(s: string)
    requires |s| >= 2 && s[0] == '\\' && s[1] == 'u'
    ensures ParseChar(s) == ParseUnicodeEscape(s[2..])
  {
  }

  lemma EscapeCharRoundTrip(c: char, t: string)
    ensures ParseChar(EscapeChar(c) + t) == Some((c, t))
  {
    if ShortEscape(c).Some? {
      ShortEscapeRoundTrip(c, t);
    } else if ' ' <= c <= '~' {
      var s := EscapeChar(c) + t;
      assert EscapeChar(c) == [c];
      assert s[1..] == t;
      ReadRawChar(s);
    } else if c as int < 0x10000 {
      UnicodeEscapeRoundTrip(c, t);
    } else {
      SurrogatePairRoundTrip(c, t);
    }
  }

  lemma ShortEscapeRoundTrip(c: char, t: string)
    requires ShortEscape(c).Some?
    ensures ParseChar(EscapeChar(c) + t) == Some((c, t))
  {
    var s := EscapeChar(c) + t;
    ShortEscapeInverse(c);
    assert EscapeChar(c) == ['\\', ShortEscape(c).value];
    assert s[2..] == t;
    ReadShortEscape(s);
  }

  lemma UnicodeEscapeRoundTrip(c: char, t: string)
    requires ShortEscape(c).None? && !(' ' <= c <= '~') && c as int < 0x10000
    ensures ParseChar(EscapeChar(c) + t) == Some((c, t))
  {
    var s := EscapeChar(c) + t;
    assert EscapeChar(c) == ['\\', 'u'] + Hex4(c as int);
    assert s[2..] == Hex4(c as int) + t;
    ReadUnicodeEscape(s);
    BmpRoundTrip(c, t);
  }

  /** The escape json.dumps writes for a character above U+FFFF. */
  lemma EscapeAstral(c: char)
    requires c as int >= 0x10000
    ensures var m := c as int - 0x10000;
            EscapeChar(c) == ['\\', 'u'] + Hex4(0xD800 + m / 0x400) + ['\\', 'u'] + Hex4(0xDC00 + m % 0x400)
  {
  }

  /** Reading a "\\u" escape followed by more text, stated over abstract text. */
  lemma ReadEscapedPair(s: string, hi: string, u: string, lo: string, t: string)
    requires s == ['\\', 'u'] + hi + u + lo + t
    ensures ParseChar(s) == ParseUnicodeEscape(hi + (u + lo + t))
  {
    assert s[2..] == hi + (u + lo + t);
    ReadUnicodeEscape(s);
  }

  lemma SurrogatePairRoundTrip(c: char, t: string)
    requires c as int >= 0x10000
    ensures ParseChar(EscapeChar(c) + t) == Some((c, t))
  {
    var m := c as int - 0x10000;
    var hi, lo := Hex4(0xD800 + m / 0x400), Hex4(0xDC00 + m % 0x400);
    EscapeAstral(c);
    ReadEscapedPair(EscapeChar(c) + t, hi, ['\\', 'u'], lo, t);
    AstralRoundTrip(c, t);
  }

  /** One character of a string body, stated over abstract text. */
  lemma ReadBodyChar(x: string, c: char, rest: string, body: string, after: string)
    requires |x| > 0 && x[0] != '"'
    requires ParseChar(x) == Some((c, rest)) && ParseStringBody(rest) == Some((body, after))
    ensures ParseStringBody(x) == Some(([c] + body, after))
  {
  }

  lemma EscapeStringStep(s: string, t: string)
    requires |s| > 0
    ensures EscapeString(s) + "\"" + t == EscapeChar(s[0]) + (EscapeString(s[1..]) + "\"" + t)
  {
    Assoc(EscapeChar(s[0]), EscapeString(s[1..]), "\"");
    Assoc(EscapeChar(s[0]), EscapeString(s[1..]) + "\"", t);
  }

  lemma {:induction false} StringRoundTrip(s: string, t: string)
    ensures ParseStringBody(EscapeString(s) + "\"" + t) == Some((s, t))
  {
    if |s| == 0 {
      assert EscapeString(s) + "\"" + t == "\"" + t;
    } else {
      var rest := EscapeString(s[1..]) + "\"" + t;
      EscapeStringStep(s, t);
      EscapeCharRoundTrip(s[0], rest);
      StringRoundTrip(s[1..], t);
      ReadBodyChar(EscapeChar(s[0]) + rest, s[0], rest, s[1..], t);
      assert [s[0]] + s[1..] == s;
    }
  }

  // ---------------------------------------------------------------------
  // Values
  // ---------------------------------------------------------------------

  /** json.dumps with its default separators ", " and ": ". */
  function Serialize(v: Value): (r: string)
    ensures |r| >= 2 && (r[0] == '"' || r[0] == '[' || r[0] == '{')
    decreases v
  {
    match v
    case Str(s) => Quote(s)
    case Arr(items) => "[" + Items(items) + "]"
    case Obj(members) => "{" + Members(members) + "}"
  }

  function Items(items: seq<Value>): (r: string)
    decreases items
  {
    if |items| == 0 then ""
    else if |items| == 1 then Serialize(items[0])
    else Serialize(items[0]) + ", " + Items(items[1..])
  }

  /** One object member: its key as a string literal, ": ", its value. */
  function MemberText(m: Member): (r: string)
    ensures |r| > 0 && r[0] == '"'
    decreases m
  {
    Quote(m.key) + ": " + Serialize(m.value)
  }

  function Members(members: seq<Member>): (r: string)
    decreases members
  {
    if |members| == 0 then ""
    else if |members| == 1 then MemberText(members[0])
    else MemberText(members[0]) + ", " + Members(members[1..])
  }

  /** Reads one value at the front of s, returning it with the text after it. */
  function ParseValue(s: string): (r: Option<(Value, string)>)
    ensures r.Some? ==> |r.value.1| < |s|
    decreases |s|, 1
  {
    if |s| == 0 then None
    else if s[0] == '"' then
      match ParseStringBody(s[1..])
      case None => None
      case Some((str, rest)) => Some((Str(str), rest))
    else if s[0] == '[' then
      if |s| >= 2 && s[1] == ']' then Some((Arr([]), s[2..]))
      else
        match ParseItems(s[1..])
        case None => None
        case Some((items, rest)) => Some((Arr(items), rest))
    else if s[0] == '{' then
      if |s| >= 2 && s[1] == '}' then Some((Obj([]), s[2..]))
      else
        match ParseMembers(s[1..])
        case None => None
        case Some((members, rest)) => Some((Obj(members), rest))
    else None
  }

  /** Reads the elements of a non-empty array up to and including its ']'. */
  function ParseItems(s: string): (r: Option<(seq<Value>, string)>)
    ensures r.Some? ==> |r.value.1| < |s|
    decreases |s|, 2
  {
    match ParseValue(s)
    case None => None
    case Some((v, rest)) =>
      if |rest| >= 1 && rest[0] == ']' then Some(([v], rest[1..]))
      else if |rest| >= 2 && rest[0] == ',' && rest[1] == ' ' then
        match ParseItems(rest[2..])
        case None => None
        case Some((vs, after)) => Some(([v] + vs, after))
      else None
  }

  /** Reads one `"key": value` member. */
  function ParseMember(s: string): (r: Option<(Member, string)>)
    ensures r.Some? ==> |r.value.1| < |s|
    decreases |s|, 2
  {
    if |s| == 0 || s[0] != '"' then None
    else
      match ParseStringBody(s[1..])
      case None => None
      case Some((key, rest)) =>
        if |rest| >= 2 && rest[0] == ':' && rest[1] == ' ' then
          match ParseValue(rest[2..])
          case None => None
          case Some((v, after)) => Some((Member(key, v), after))
        else None
  }

  /** Reads the members of a non-empty object up to and including its '}'. */
  function ParseMembers(s: string): (r: Option<(seq<Member>, string)>)
    ensures r.Some? ==> |r.value.1| < |s|
    decreases |s|, 3
  {
    match ParseMember(s)
    case None => None
    case Some((m, rest)) =>
      if |rest| >= 1 && rest[0] == '}' then Some(([m], rest[1..]))
      else if |rest| >= 2 && rest[0] == ',' && rest[1] == ' ' then
        match ParseMembers(rest[2..])
        case None => None
        case Some((ms, after)) => Some(([m] + ms, after))
      else None
  }

  /** Reads a whole text as one value, with nothing after it. */
  function Parse(s: string): (r: Option<Value>)
  {
    match ParseValue(s)
    case Some((v, rest)) => if |rest| == 0 then Some(v) else None
    case None => None
  }

  lemma Assoc(a: string, b: string, c: string)
    ensures a + b + c == a + (b + c)
  {
  }

  lemma StrStep(s: string, t: string)
    requires ParseStringBody(EscapeString(s) + "\"" + t) == Some((s, t))
    ensures ParseValue(Serialize(Str(s)) + t) == Some((Str(s), t))
  {
    Assoc("\"" + EscapeString(s), "\"", t);
    Assoc("\"", EscapeString(s), "\"" + t);
    Assoc(EscapeString(s), "\"", t);
  }

  lemma ArrStep(items: seq<Value>, t: string)
    requires |items| > 0 ==> |Items(items)| > 0 && Items(items)[0] != ']'
    requires |items| > 0 ==> ParseItems(Items(items) + "]" + t) == Some((items, t))
    ensures ParseValue(Serialize(Arr(items)) + t) == Some((Arr(items), t))
  {
    var s := Serialize(Arr(items)) + t;
    if |items| == 0 {
      assert Serialize(Arr(items)) == "[]";
      assert s[2..] == t;
    } else {
      Assoc("[", Items(items), "]");
      Assoc("[", Items(items) + "]", t);
      assert s[1..] == Items(items) + "]" + t;
    }
  }

  lemma ObjStep(members: seq<Member>, t: string)
    requires |members| > 0 ==> |Members(members)| > 0 && Members(members)[0] == '"'
    requires |members| > 0 ==> ParseMembers(Members(members) + "}" + t) == Some((members, t))
    ensures ParseValue(Serialize(Obj(members)) + t) == Some((Obj(members), t))
  {
    var s := Serialize(Obj(members)) + t;
    if |members| == 0 {
      assert Serialize(Obj(members)) == "{}";
      assert s[2..] == t;
    } else {
      Assoc("{", Members(members), "}");
      Assoc("{", Members(members) + "}", t);
      assert s[1..] == Members(members) + "}" + t;
    }
  }

  lemma {:induction false} ValueRoundTrip(v: Value, t: string)
    ensures ParseValue(Serialize(v) + t) == Some((v, t))
    decreases v
  {
    match v
    case Str(s) =>
      StringRoundTrip(s, t);
      StrStep(s, t);
    case Arr(items) =>
      if |items| > 0 {
        ItemsRoundTrip(items, t);
      }
      ArrStep(items, t);
    case Obj(members) =>
      if |members| > 0 {
        MembersRoundTrip(members, t);
      }
      ObjStep(members, t);
  }

  // One step of each reader, stated over abstract text so that proving it
  // unfolds the reader once and nothing else.

  lemma ReadLastItem(s: string, v: Value, rest: string)
    requires ParseValue(s) == Some((v, rest)) && |rest| >= 1 && rest[0] == ']'
    ensures ParseItems(s) == Some(([v], rest[1..]))
  {
  }

  lemma ReadNextItem(s: string, v: Value, rest: string, vs: seq<Value>, after: string)
    requires ParseValue(s) == Some((v, rest))
    requires |rest| >= 2 && rest[0] == ',' && rest[1] == ' '
    requires ParseItems(rest[2..]) == Some((vs, after))
    ensures ParseItems(s) == Some(([v] + vs, after))
  {
  }

  lemma ReadMember(s: string, key: string, afterKey: string, v: Value, after: string)
    requires |s| > 0 && s[0] == '"'
    requires ParseStringBody(s[1..]) == Some((key, afterKey))
    requires |afterKey| >= 2 && afterKey[0] == ':' && afterKey[1] == ' '
    requires ParseValue(afterKey[2..]) == Some((v, after))
    ensures ParseMember(s) == Some((Member(key, v), after))
  {
  }

  lemma ReadLastMember(s: string, m: Member, rest: string)
    requires ParseMember(s) == Some((m, rest)) && |rest| >= 1 && rest[0] == '}'
    ensures ParseMembers(s) == Some(([m], rest[1..]))
  {
  }

  lemma ReadNextMember(s: string, m: Member, rest: string, ms: seq<Member>, after: string)
    requires ParseMember(s) == Some((m, rest))
    requires |rest| >= 2 && rest[0] == ',' && rest[1] == ' '
    requires ParseMembers(rest[2..]) == Some((ms, after))
    ensures ParseMembers(s) == Some(([m] + ms, after))
  {
  }

  lemma {:induction false} ItemsRoundTrip(items: seq<Value>, t: string)
    requires |items| > 0
    ensures |Items(items)| > 0 && Items(items)[0] != ']'
    ensures ParseItems(Items(items) + "]" + t) == Some((items, t))
    decreases items
  {
    var v := items[0];
    if |items| == 1 {
      var rest := "]" + t;
      ValueRoundTrip(v, rest);
      LastItemSplit(v, t);
      ReadLastItem(Serialize(v) + rest, v, rest);
      assert [v] == items;
    } else {
      var rest := ", " + (Items(items[1..]) + "]" + t);
      ValueRoundTrip(v, rest);
      ItemsRoundTrip(items[1..], t);
      NextItemSplit(items, t);
      ReadNextItem(Serialize(v) + rest, v, rest, items[1..], t);
      assert [v] + items[1..] == items;
    }
  }

  lemma LastItemSplit(v: Value, t: string)
    ensures Items([v]) + "]" + t == Serialize(v) + ("]" + t)
    ensures ("]" + t)[1..] == t
  {
  }

  lemma NextItemSplit(items: seq<Value>, t: string)
    requires |items| > 1
    ensures Items(items) + "]" + t == Serialize(items[0]) + (", " + (Items(items[1..]) + "]" + t))
    ensures (", " + (Items(items[1..]) + "]" + t))[2..] == Items(items[1..]) + "]" + t
  {
    var head, tail := Serialize(items[0]), Items(items[1..]);
    assert Items(items) == head + ", " + tail;
    SplitAtSeparator(head, tail, "]", t);
  }

  /** A string literal followed by any text reads back as that string and that text. */
  lemma QuoteRoundTrip(k: string, rest: string)
    ensures |Quote(k) + rest| > 0 && (Quote(k) + rest)[0] == '"'
    ensures ParseStringBody((Quote(k) + rest)[1..]) == Some((k, rest))
  {
    assert (Quote(k) + rest)[1..] == EscapeString(k) + "\"" + rest;
    StringRoundTrip(k, rest);
  }

  lemma {:induction false} MemberRoundTrip(m: Member, after: string)
    ensures ParseMember(MemberText(m) + after) == Some((m, after))
    decreases m
  {
    var afterKey := ": " + (Serialize(m.value) + after);
    MemberTextSplit(m, after);
    QuoteRoundTrip(m.key, afterKey);
    ValueRoundTrip(m.value, after);
    ReadMember(Quote(m.key) + afterKey, m.key, afterKey, m.value, after);
  }

  lemma MemberTextSplit(m: Member, after: string)
    ensures MemberText(m) + after == Quote(m.key) + (": " + (Serialize(m.value) + after))
    ensures (": " + (Serialize(m.value) + after))[2..] == Serialize(m.value) + after
  {
    Assoc(Quote(m.key) + ": ", Serialize(m.value), after);
    Assoc(Quote(m.key), ": ", Serialize(m.value) + after);
  }

  lemma {:induction false} MembersRoundTrip(members: seq<Member>, t: string)
    requires |members| > 0
    ensures |Members(members)| > 0 && Members(members)[0] == '"'
    ensures ParseMembers(Members(members) + "}" + t) == Some((members, t))
    decreases members
  {
    var m := members[0];
    if |members| == 1 {
      var rest := "}" + t;
      MemberRoundTrip(m, rest);
      LastMemberSplit(m, t);
      ReadLastMember(MemberText(m) + rest, m, rest);
      assert [m] == members;
    } else {
      var rest := ", " + (Members(members[1..]) + "}" + t);
      MemberRoundTrip(m, rest);
      MembersRoundTrip(members[1..], t);
      NextMemberSplit(members, t);
      ReadNextMember(MemberText(m) + rest, m, rest, members[1..], t);
      assert [m] + members[1..] == members;
    }
  }

  lemma LastMemberSplit(m: Member, t: string)
    ensures Members([m]) + "}" + t == MemberText(m) + ("}" + t)
    ensures ("}" + t)[1..] == t
  {
  }

  lemma NextMemberSplit(members: seq<Member>, t: string)
    requires |members| > 1
    ensures Members(members) + "}" + t == MemberText(members[0]) + (", " + (Members(members[1..]) + "}" + t))
    ensures (", " + (Members(members[1..]) + "}" + t))[2..] == Members(members[1..]) + "}" + t
  {
    var head, tail := MemberText(members[0]), Members(members[1..]);
    assert Members(members) == head + ", " + tail;
    SplitAtSeparator(head, tail, "}", t);
  }

  /** The text after the first element of a list, stated over abstract text. */
  lemma SplitAtSeparator(head: string, tail: string, close: string, t: string)
    ensures head + ", " + tail + close + t == head + (", " + (tail + close + t))
    ensures (", " + (tail + close + t))[2..] == tail + close + t
  {
    Assoc(head, ", ", tail + close + t);
    Assoc(head + ", ", tail, close + t);
    Assoc(head + ", " + tail, close, t);
    Assoc(tail, close, t);
  }

  // The layout of the text: ", " between items and members, ": " after keys.

  lemma QuotePlain(s: string)
    requires forall i :: 0 <= i < |s| ==> Plain(s[i])
    ensures Serialize(Str(s)) == "\"" + s + "\""
  {
    EscapePlainString(s);
  }

  lemma ArrayOfOne(a: Value)
    ensures Serialize(Arr([a])) == "[" + Serialize(a) + "]"
  {
  }

  lemma ItemsOfTwo(xs: seq<Value>)
    requires |xs| == 2
    ensures Items(xs) == Serialize(xs[0]) + ", " + Serialize(xs[1])
  {
    assert xs[1..] == [xs[1]];
  }

  lemma ArrayOfTwo(a: Value, b: Value)
    ensures Serialize(Arr([a, b])) == "[" + Serialize(a) + ", " + Serialize(b) + "]"
  {
    var xs := [a, b];
    ItemsOfTwo(xs);
    assert Serialize(Arr(xs)) == "[" + Items(xs) + "]";
  }

  lemma MembersOfTwo(ms: seq<Member>)
    requires |ms| == 2
    ensures Members(ms) == MemberText(ms[0]) + ", " + MemberText(ms[1])
  {
    assert ms[1..] == [ms[1]];
  }

  lemma ObjectOfTwo(m: Member, n: Member)
    ensures Serialize(Obj([m, n])) == "{" + MemberText(m) + ", " + MemberText(n) + "}"
  {
    var ms := [m, n];
    MembersOfTwo(ms);
    assert Serialize(Obj(ms)) == "{" + Members(ms) + "}";
  }

  /** The parser inverts the serialiser. */
  lemma ParseSerialize(v: Value)
    ensures Parse(Serialize(v)) == Some(v)
  {
    ValueRoundTrip(v, "");
    assert Serialize(v) + "" == Serialize(v);
  }

  /** Distinct values have distinct texts. */
  lemma SerializeInjective(v: Value, w: Value)
    ensures Serialize(v) == Serialize(w) <==> v == w
  {
    ParseSerialize(v);
    ParseSerialize(w);
  }
}
