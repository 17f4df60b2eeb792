/** JSON values and JSON.stringify, after sections 2 to 7 of RFC 8259. Objects keep the order in
    which their members were inserted. */
module Json {
  import opened Options
  import opened Sorting

  datatype Value =
    | Null
    | Bool(b: bool)
    | Num(text: string)  // a number is identified with the text JSON.stringify prints for it
    | Str(s: string)
    | Arr(items: seq<Value>)
    | Obj(members: seq<Member>)

  datatype Member = Member(key: string, value: Value)

  function KeyOf(m: Member): string { m.key }

  function Keys(ms: seq<Member>): seq<string> { Map(KeyOf, ms) }

  ghost predicate DistinctKeys(ms: seq<Member>) {
    forall i, j | 0 <= i < j < |ms| :: ms[i].key != ms[j].key
  }

  predicate IsNumberChar(c: char) { '0' <= c <= '9' || c in "+-.eE" }

  /** Numbers have number text, of which JSON.stringify prints some, and no object repeats a key. */
  ghost predicate WellFormed(v: Value) {
    match v
    case Num(text) => text != [] && forall c | c in text :: IsNumberChar(c)
    case Arr(items) => forall x | x in items :: WellFormed(x)
    case Obj(ms) => DistinctKeys(ms) && forall m | m in ms :: WellFormed(m.value)
    case _ => true
  }

  // ---- Reading and writing a member ----

  function Get(ms: seq<Member>, key: string): Option<Value> {
    if ms == [] then None else if ms[0].key == key then Some(ms[0].value) else Get(ms[1..], key)
  }

  /** `ms[key] = v`: an existing key keeps its place. */
  function Put(ms: seq<Member>, key: string, v: Value): (r: seq<Member>)
    ensures r != []
  {
    if ms == [] then [Member(key, v)]
    else if ms[0].key == key then [Member(key, v)] + ms[1..]
    else [ms[0]] + Put(ms[1..], key, v)
  }

  lemma {:induction false} GetPut(ms: seq<Member>, key: string, v: Value, other: string)
    ensures Get(Put(ms, key, v), other) == if other == key then Some(v) else Get(ms, other)
  {
    if ms != [] && ms[0].key != key { GetPut(ms[1..], key, v, other); }
  }

  lemma {:induction false} PutMembership(ms: seq<Member>, key: string, v: Value, m: Member)
    requires m in Put(ms, key, v)
    ensures m in ms || m == Member(key, v)
  {
    if ms != [] && ms[0].key != key && m != ms[0] {
      PutMembership(ms[1..], key, v, m);
    }
  }

  lemma LaterKeysDiffer(ms: seq<Member>, m: Member)
    requires ms != [] && DistinctKeys(ms) && m in ms[1..]
    ensures m.key != ms[0].key
  {
    var i :| 0 <= i < |ms[1..]| && ms[1..][i] == m;
    assert m == ms[i + 1];
  }

  lemma ConsDistinct(first: Member, rest: seq<Member>)
    requires DistinctKeys(rest) && forall m | m in rest :: m.key != first.key
    ensures DistinctKeys([first] + rest)
  {
  }

  lemma {:induction false} PutDistinct(ms: seq<Member>, key: string, v: Value)
    requires DistinctKeys(ms)
    ensures DistinctKeys(Put(ms, key, v))
  {
    if ms != [] && ms[0].key != key {
      PutDistinct(ms[1..], key, v);
      forall m | m in Put(ms[1..], key, v) ensures m.key != ms[0].key {
        PutMembership(ms[1..], key, v, m);
        if m in ms[1..] { LaterKeysDiffer(ms, m); }
      }
      ConsDistinct(ms[0], Put(ms[1..], key, v));
    }
  }

  lemma PutMembers(ms: seq<Member>, key: string, v: Value)
    requires DistinctKeys(ms)
    ensures DistinctKeys(Put(ms, key, v))
    ensures forall m | m in Put(ms, key, v) :: m in ms || m == Member(key, v)
  {
    PutDistinct(ms, key, v);
    forall m | m in Put(ms, key, v) ensures m in ms || m == Member(key, v) { PutMembership(ms, key, v, m); }
  }

  // ---- Printing ----

  function HexDigit(n: nat): char
    requires n < 16
  {
    "0123456789abcdef"[n]
  }

  function EscapeChar(c: char): string {
    if c == '\"' then "\\\""
    else if c == '\\' then "\\\\"
    else if c == '\U{8}' then "\\b"
    else if c == '\t' then "\\t"
    else if c == '\n' then "\\n"
    else if c == '\U{c}' then "\\f"
    else if c == '\r' then "\\r"
    else if c < ' ' then "\\u00" + [HexDigit(c as int / 16), HexDigit(c as int % 16)]
    else [c]
  }

  function Escape(s: string): string {
    if s == [] then [] else EscapeChar(s[0]) + Escape(s[1..])
  }

  /** JSON.stringify of a string. */
  function Quote(s: string): string { "\"" + Escape(s) + "\"" }

  function DigitChar(n: nat): char
    requires n < 10
  {
    '0' + n as char
  }

  function Digits(n: nat): string { if n < 10 then [DigitChar(n)] else Digits(n / 10) + [DigitChar(n % 10)] }

  /** JSON.stringify of an integer. */
  function Decimal(n: int): string { if n < 0 then "-" + Digits(-n) else Digits(n) }

  lemma {:induction false} DigitsAreNumber(n: nat)
    ensures Digits(n) != [] && forall c | c in Digits(n) :: IsNumberChar(c)
  {
    if n >= 10 { DigitsAreNumber(n / 10); }
  }

  /** The number a text of decimal digits stands for. */
  function DigitsValue(s: string): int {
    if s == [] then 0 else 10 * DigitsValue(s[..|s| - 1]) + (s[|s| - 1] as int - '0' as int)
  }

  lemma {:induction false} DigitsStandFor(n: nat)
    ensures DigitsValue(Digits(n)) == n && Digits(n) != [] && (n > 0 ==> Digits(n)[0] != '0')
    ensures forall c | c in Digits(n) :: '0' <= c <= '9'
  {
    if n >= 10 {
      DigitsStandFor(n / 10);
      assert Digits(n)[..|Digits(n)| - 1] == Digits(n / 10);
    } else {
      assert Digits(n)[..0] == [] && DigitsValue([]) == 0;
    }
  }

  /** An integer prints as its decimal digits, without leading zeros, after a minus sign if it is negative. */
  lemma DecimalSpelled(n: int)
    ensures var digits := if n < 0 then Decimal(n)[1..] else Decimal(n);
            && (n < 0 ==> Decimal(n)[0] == '-')
            && digits != [] && (n != 0 ==> digits[0] != '0') && (forall c | c in digits :: '0' <= c <= '9')
            && DigitsValue(digits) == if n < 0 then -n else n
  {
    DigitsStandFor(if n < 0 then -n else n);
    if n < 0 { assert ("-" + Digits(-n))[1..] == Digits(-n); }
  }

  function CommaTail(texts: seq<string>): string {
    if texts == [] then [] else "," + texts[0] + CommaTail(texts[1..])
  }

  /** `texts.join(',')` */
  function Commas(texts: seq<string>): string {
    if texts == [] then [] else texts[0] + CommaTail(texts[1..])
  }

  function Scalar(v: Value): string
    requires !v.Arr? && !v.Obj?
  {
    match v
    case Null => "null"
    case Bool(b) => if b then "true" else "false"
    case Num(text) => text
    case Str(s) => Quote(s)
  }

  /** JSON.stringify: members in insertion order. */
  function Print(v: Value): string {
    match v
    case Arr(items) => "[" + Commas(PrintAll(items)) + "]"
    case Obj(ms) => "{" + Commas(PrintMembers(ms)) + "}"
    case _ => Scalar(v)
  }

  function PrintAll(items: seq<Value>): (r: seq<string>)
    ensures |r| == |items|
  {
    if items == [] then [] else [Print(items[0])] + PrintAll(items[1..])
  }

  function PrintMembers(ms: seq<Member>): (r: seq<string>)
    ensures |r| == |ms|
  {
    if ms == [] then [] else [Quote(ms[0].key) + ":" + Print(ms[0].value)] + PrintMembers(ms[1..])
  }

  // ---- Reading JSON text (sections 2 to 7 of RFC 8259), without insignificant white space ----

  /** The two-character escapes of section 7. */
  function Unescaped(c: char): Option<char> {
    if c == '\"' || c == '\\' || c == '/' then Some(c)
    else if c == 'b' then Some('\U{8}')
    else if c == 'f' then Some('\U{c}')
    else if c == 'n' then Some('\n')
    else if c == 'r' then Some('\r')
    else if c == 't' then Some('\t')
    else None
  }

  function HexValue(c: char): (v: Option<nat>)
    ensures v.Some? ==> v.value < 16
  {
    if '0' <= c <= '9' then Some((c - '0') as nat)
    else if 'a' <= c <= 'f' then Some(10 + (c - 'a') as nat)
    else if 'A' <= c <= 'F' then Some(10 + (c - 'A') as nat)
    else None
  }

  /** `\uXXXX`, for characters that are no surrogates. */
  function ReadHex(w: char, x: char, y: char, z: char): Option<char> {
    var a, b, c, d := HexValue(w), HexValue(x), HexValue(y), HexValue(z);
    if a.None? || b.None? || c.None? || d.None? then None
    else
      var code := ((a.value * 16 + b.value) * 16 + c.value) * 16 + d.value;
      if 0xD800 <= code < 0xE000 then None else Some(code as char)
  }

  /** One character of a string, and what follows it. */
  function ReadChar(text: string): (r: Option<(char, string)>)
    ensures r.Some? ==> |r.value.1| < |text|
  {
    if text == [] || text[0] < ' ' || text[0] == '\"' then None
    else if text[0] != '\\' then Some((text[0], text[1..]))
    else if |text| >= 6 && text[1] == 'u' then
      match ReadHex(text[2], text[3], text[4], text[5])
      case Some(c) => Some((c, text[6..]))
      case None => None
    else if |text| >= 2 && Unescaped(text[1]).Some? then Some((Unescaped(text[1]).value, text[2..]))
    else None
  }

  /** A string after its opening quote, and what follows its closing quote. */
  function ReadString(text: string): (r: Option<(string, string)>)
    ensures r.Some? ==> |r.value.1| < |text|
    decreases |text|
  {
    if text != [] && text[0] == '\"' then Some(("", text[1..]))
    else
      match ReadChar(text)
      case None => None
      case Some(first) =>
        match ReadString(first.1)
        case None => None
        case Some(more) => Some(([first.0] + more.0, more.1))
  }

  function ReadNumber(text: string): (r: (string, string))
    ensures |r.1| <= |text| && (text != [] && IsNumberChar(text[0]) ==> |r.1| < |text|)
  {
    if text == [] || !IsNumberChar(text[0]) then ("", text)
    else var more := ReadNumber(text[1..]); ([text[0]] + more.0, more.1)
  }

  predicate StartsWith(text: string, word: string) { |text| >= |word| && text[..|word|] == word }

  /** One value, and what follows it. */
  function ReadValue(text: string): (r: Option<(Value, string)>)
    ensures r.Some? ==> |r.value.1| < |text|
    decreases |text|, 0
  {
    if text == [] then None
    else if text[0] == '\"' then
      match ReadString(text[1..])
      case None => None
      case Some(r) => Some((Str(r.0), r.1))
    else if text[0] == '[' then
      if StartsWith(text, "[]") then Some((Arr([]), text[2..]))
      else
        match ReadItems(text[1..])
        case None => None
        case Some(r) => Some((Arr(r.0), r.1))
    else if text[0] == '{' then
      if StartsWith(text, "{}") then Some((Obj([]), text[2..]))
      else
        match ReadMembers(text[1..])
        case None => None
        case Some(r) => Some((Obj(r.0), r.1))
    else if StartsWith(text, "null") then Some((Null, text[4..]))
    else if StartsWith(text, "true") then Some((Bool(true), text[4..]))
    else if StartsWith(text, "false") then Some((Bool(false), text[5..]))
    else if IsNumberChar(text[0]) then var r := ReadNumber(text); Some((Num(r.0), r.1))
    else None
  }

  /** The values up to the closing bracket. */
  function ReadItems(text: string): (r: Option<(seq<Value>, string)>)
    ensures r.Some? ==> |r.value.1| < |text|
    decreases |text|, 1
  {
    match ReadValue(text)
    case None => None
    case Some(first) =>
      if StartsWith(first.1, "]") then Some(([first.0], first.1[1..]))
      else if StartsWith(first.1, ",") then
        match ReadItems(first.1[1..])
        case None => None
        case Some(more) => Some(([first.0] + more.0, more.1))
      else None
  }

  /** A quoted key, a colon and a value. */
  function ReadMember(text: string): (r: Option<(Member, string)>)
    ensures r.Some? ==> |r.value.1| < |text|
    decreases |text|, 0
  {
    if !StartsWith(text, "\"") then None
    else
      match ReadString(text[1..])
      case None => None
      case Some(key) =>
        if !StartsWith(key.1, ":") then None
        else
          match ReadValue(key.1[1..])
          case None => None
          case Some(value) => Some((Member(key.0, value.0), value.1))
  }

  /** The members up to the closing brace. */
  function ReadMembers(text: string): (r: Option<(seq<Member>, string)>)
    ensures r.Some? ==> |r.value.1| < |text|
    decreases |text|, 1
  {
    match ReadMember(text)
    case None => None
    case Some(first) =>
      if StartsWith(first.1, "}") then Some(([first.0], first.1[1..]))
      else if StartsWith(first.1, ",") then
        match ReadMembers(first.1[1..])
        case None => None
        case Some(more) => Some(([first.0] + more.0, more.1))
      else None
  }

  // ---- Reading undoes printing ----

  lemma CancelPrefix(p: string, x: string, y: string)
    requires p + x == p + y
    ensures x == y
  {
    assert x == (p + x)[|p|..] && y == (p + y)[|p|..];
  }

  lemma Assoc(a: string, b: string, c: string)
    ensures (a + b) + c == a + (b + c)
  {
  }

  lemma Hexed(n: nat)
    requires n < 32
    ensures HexValue('0') == Some(0)
    ensures HexValue(HexDigit(n / 16)) == Some(n / 16) && HexValue(HexDigit(n % 16)) == Some(n % 16)
    ensures n / 16 * 16 + n % 16 == n
  {
  }

  lemma HexReads(h: char, l: char, x: string)
    ensures var text := ['\\', 'u', '0', '0', h, l] + x;
            ReadChar(text) == match ReadHex('0', '0', h, l)
                              case Some(c) => Some((c, x))
                              case None => None
  {
    var text := ['\\', 'u', '0', '0', h, l] + x;
    assert text[6..] == x;
  }

  lemma ShortReads(e: char, x: string)
    requires Unescaped(e).Some?
    ensures ReadChar(['\\', e] + x) == Some((Unescaped(e).value, x))
  {
    var text := ['\\', e] + x;
    assert text[2..] == x;
  }

  lemma PlainReads(c: char, x: string)
    requires c >= ' ' && c != '\"' && c != '\\'
    ensures ReadChar([c] + x) == Some((c, x))
  {
    assert ([c] + x)[1..] == x;
  }

  lemma ControlReads(c: char, x: string)
    requires c < ' ' && |EscapeChar(c)| == 6
    ensures ReadChar(EscapeChar(c) + x) == Some((c, x))
  {
    var h, l := HexDigit(c as int / 16), HexDigit(c as int % 16);
    Hexed(c as int);
    assert EscapeChar(c) == ['\\', 'u', '0', '0', h, l];
    HexReads(h, l, x);
  }

  lemma ReadEscaped(c: char, x: string)
    ensures EscapeChar(c) != [] && EscapeChar(c)[0] != '\"'
    ensures ReadChar(EscapeChar(c) + x) == Some((c, x))
  {
    var e := EscapeChar(c);
    if |e| == 6 {
      ControlReads(c, x);
    } else if |e| == 2 {
      assert e == ['\\', e[1]];
      ShortReads(e[1], x);
    } else {
      PlainReads(c, x);
    }
  }

  /** A printed string ends where its closing quote is, whatever follows. */
  lemma {:induction false} ReadQuoted(s: string, rest: string)
    ensures ReadString(Escape(s) + ("\"" + rest)) == Some((s, rest))
  {
    if s == [] {
      assert Escape(s) + ("\"" + rest) == "\"" + rest;
    } else {
      Assoc(EscapeChar(s[0]), Escape(s[1..]), "\"" + rest);
      ReadEscaped(s[0], Escape(s[1..]) + ("\"" + rest));
      assert (EscapeChar(s[0]) + (Escape(s[1..]) + ("\"" + rest)))[0] == EscapeChar(s[0])[0];
      ReadQuoted(s[1..], rest);
      assert s == [s[0]] + s[1..];
    }
  }

  lemma QuoteReads(s: string, rest: string)
    ensures Quote(s) + rest == "\"" + (Escape(s) + ("\"" + rest))
    ensures ReadString((Quote(s) + rest)[1..]) == Some((s, rest))
  {
    BracketFirst("\"", Escape(s), "\"", rest);
    ReadQuoted(s, rest);
  }

  lemma QuoteSelfDelimiting(a: string, b: string, s: string, t: string)
    requires Quote(a) + s == Quote(b) + t
    ensures a == b && s == t
  {
    QuoteReads(a, s);
    QuoteReads(b, t);
  }

  /** The text after a value: nothing, or a character no number can contain. */
  predicate Ends(s: string) { s == [] || s[0] in ",]}" }

  lemma {:induction false} NumberReads(text: string, rest: string)
    requires Ends(rest) && forall c | c in text :: IsNumberChar(c)
    ensures ReadNumber(text + rest) == (text, rest)
  {
    if text == [] {
      assert text + rest == rest;
    } else {
      assert text[0] in text && (text + rest)[1..] == text[1..] + rest;
      NumberReads(text[1..], rest);
      assert text == [text[0]] + text[1..];
    }
  }

  lemma OtherWord(text: string, word: string)
    requires text != [] && word != []
    ensures text[0] != word[0] ==> !StartsWith(text, word)
  {
    if StartsWith(text, word) { assert text[0] == text[..|word|][0]; }
  }

  lemma WordReads(word: string, v: Value, rest: string)
    requires || (word == "null" && v == Null)
             || (word == "true" && v == Bool(true))
             || (word == "false" && v == Bool(false))
    ensures ReadValue(word + rest) == Some((v, rest))
  {
    var text := word + rest;
    assert text[..|word|] == word && text[|word|..] == rest;
    OtherWord(text, "null");
    OtherWord(text, "true");
  }

  lemma NumberValueReads(n: string, rest: string)
    requires n != [] && Ends(rest) && forall c | c in n :: IsNumberChar(c)
    ensures ReadValue(n + rest) == Some((Num(n), rest))
  {
    var text := n + rest;
    NumberReads(n, rest);
    assert n[0] in n && text[0] == n[0];
    OtherWord(text, "null");
    OtherWord(text, "true");
    OtherWord(text, "false");
  }

  lemma StringValueReads(s: string, rest: string)
    ensures ReadValue(Quote(s) + rest) == Some((Str(s), rest))
  {
    QuoteReads(s, rest);
  }

  lemma ScalarReads(v: Value, rest: string)
    requires !v.Arr? && !v.Obj? && WellFormed(v) && Ends(rest)
    ensures ReadValue(Scalar(v) + rest) == Some((v, rest))
  {
    match v
    case Null => WordReads("null", v, rest);
    case Bool(b) => WordReads(if b then "true" else "false", v, rest);
    case Num(n) => NumberValueReads(n, rest);
    case Str(s) => StringValueReads(s, rest);
  }

  lemma PrintStart(v: Value, s: string)
    requires WellFormed(v)
    ensures Print(v) != [] && (Print(v) + s)[0] == Print(v)[0] && Print(v)[0] != ']'
  {
    if v.Num? { assert v.text[0] in v.text; }
  }

  /** Reading a printed value gives it back, and stops where it ends. */
  lemma {:induction false} ReadPrint(v: Value, rest: string)
    requires WellFormed(v) && Ends(rest)
    ensures ReadValue(Print(v) + rest) == Some((v, rest))
    decreases v, 1
  {
    match v
    case Arr(items) => ArrayReads(items, rest);
    case Obj(ms) => ObjectReads(ms, rest);
    case _ => ScalarReads(v, rest);
  }

  lemma EmptyReads(rest: string)
    ensures ReadValue("[" + ("" + ("]" + rest))) == Some((Arr([]), rest))
    ensures ReadValue("{" + ("" + ("}" + rest))) == Some((Obj([]), rest))
  {
    assert "[" + ("" + ("]" + rest)) == "[]" + rest && "{" + ("" + ("}" + rest)) == "{}" + rest;
    assert ("[]" + rest)[..2] == "[]" && ("[]" + rest)[2..] == rest;
    assert ("{}" + rest)[..2] == "{}" && ("{}" + rest)[2..] == rest;
  }

  lemma BracketReads(body: string)
    requires body != [] && body[0] != ']' && ReadItems(body).Some?
    ensures ReadValue("[" + body) == Some((Arr(ReadItems(body).value.0), ReadItems(body).value.1))
  {
    assert ("[" + body)[1..] == body && ("[" + body)[..2][1] == body[0];
  }

  lemma BraceReads(body: string)
    requires body != [] && body[0] != '}' && ReadMembers(body).Some?
    ensures ReadValue("{" + body) == Some((Obj(ReadMembers(body).value.0), ReadMembers(body).value.1))
  {
    assert ("{" + body)[1..] == body && ("{" + body)[..2][1] == body[0];
  }

  lemma {:induction false} ArrayReads(items: seq<Value>, rest: string)
    requires forall x | x in items :: WellFormed(x)
    ensures ReadValue(Print(Arr(items)) + rest) == Some((Arr(items), rest))
    decreases items, 1
  {
    var body := Commas(PrintAll(items)) + ("]" + rest);
    BracketFirst("[", Commas(PrintAll(items)), "]", rest);
    if items == [] {
      EmptyReads(rest);
    } else {
      CommasStep(PrintAll(items), "]" + rest);
      PrintStart(items[0], CommaTail(PrintAll(items)[1..]) + ("]" + rest));
      ItemsRead(items, rest);
      BracketReads(body);
    }
  }

  /** The text between two brackets, after its first element. */
  lemma TailText(us: seq<string>, end: string)
    ensures CommaTail(us) + end == if us == [] then end else "," + (Commas(us) + end)
  {
    CommasStep(us, end);
  }

  lemma ItemsStep(text: string, v: Value, after: string, rest: string)
    requires ReadValue(text) == Some((v, after))
    ensures after == "]" + rest ==> ReadItems(text) == Some(([v], rest))
    ensures after == "," + rest ==>
              ReadItems(text) == match ReadItems(rest)
                                 case Some(more) => Some(([v] + more.0, more.1))
                                 case None => None
  {
    assert |after| > 0 ==> after[..1] == [after[0]];
    assert ("]" + rest)[1..] == rest && ("," + rest)[1..] == rest;
  }

  lemma {:induction false} ItemsRead(items: seq<Value>, rest: string)
    requires items != [] && forall x | x in items :: WellFormed(x)
    ensures ReadItems(Commas(PrintAll(items)) + ("]" + rest)) == Some((items, rest))
    decreases items, 0
  {
    var us, end := PrintAll(items[1..]), "]" + rest;
    var text, after := Commas(PrintAll(items)) + end, CommaTail(us) + end;
    CommasStep(PrintAll(items), end);
    CommaTailEnds(us, end);
    TailText(us, end);
    ReadPrint(items[0], after);
    assert items == [items[0]] + items[1..];
    assert PrintAll(items)[1..] == us;
    if us == [] {
      assert items == [items[0]];
      ItemsStep(text, items[0], after, rest);
    } else {
      ItemsStep(text, items[0], after, Commas(us) + end);
      ItemsRead(items[1..], rest);
    }
  }

  lemma {:induction false} ObjectReads(ms: seq<Member>, rest: string)
    requires forall m | m in ms :: WellFormed(m.value)
    ensures ReadValue(Print(Obj(ms)) + rest) == Some((Obj(ms), rest))
    decreases ms, 1
  {
    var body := Commas(PrintMembers(ms)) + ("}" + rest);
    BracketFirst("{", Commas(PrintMembers(ms)), "}", rest);
    if ms == [] {
      EmptyReads(rest);
    } else {
      CommasStep(PrintMembers(ms), "}" + rest);
      MemberStart(ms[0], CommaTail(PrintMembers(ms)[1..]) + ("}" + rest));
      MembersRead(ms, rest);
      BraceReads(body);
    }
  }

  lemma MemberStart(m: Member, rest: string)
    ensures (Quote(m.key) + ":" + Print(m.value)) + rest == Quote(m.key) + (":" + (Print(m.value) + rest))
    ensures ((Quote(m.key) + ":" + Print(m.value)) + rest)[0] == '\"'
  {
    BracketFirst(Quote(m.key), ":", Print(m.value), rest);
    assert Quote(m.key)[0] == '\"';
  }

  lemma {:induction false} MemberReads(m: Member, rest: string)
    requires WellFormed(m.value) && Ends(rest)
    ensures ReadMember((Quote(m.key) + ":" + Print(m.value)) + rest) == Some((m, rest))
    decreases m.value, 2
  {
    var value := Print(m.value) + rest;
    MemberStart(m, rest);
    QuoteReads(m.key, ":" + value);
    assert (":" + value)[..1] == ":" && (":" + value)[1..] == value;
    ReadPrint(m.value, rest);
  }

  lemma MembersStep(text: string, m: Member, after: string, rest: string)
    requires ReadMember(text) == Some((m, after))
    ensures after == "}" + rest ==> ReadMembers(text) == Some(([m], rest))
    ensures after == "," + rest ==>
              ReadMembers(text) == match ReadMembers(rest)
                                   case Some(more) => Some(([m] + more.0, more.1))
                                   case None => None
  {
    assert |after| > 0 ==> after[..1] == [after[0]];
    assert ("}" + rest)[1..] == rest && ("," + rest)[1..] == rest;
  }

  lemma {:induction false} MembersRead(ms: seq<Member>, rest: string)
    requires ms != [] && forall m | m in ms :: WellFormed(m.value)
    ensures ReadMembers(Commas(PrintMembers(ms)) + ("}" + rest)) == Some((ms, rest))
    decreases ms, 0
  {
    var us, end := PrintMembers(ms[1..]), "}" + rest;
    var text, after := Commas(PrintMembers(ms)) + end, CommaTail(us) + end;
    CommasStep(PrintMembers(ms), end);
    CommaTailEnds(us, end);
    TailText(us, end);
    MemberReads(ms[0], after);
    assert ms == [ms[0]] + ms[1..];
    assert PrintMembers(ms)[1..] == us;
    if us == [] {
      assert ms == [ms[0]];
      MembersStep(text, ms[0], after, rest);
    } else {
      MembersStep(text, ms[0], after, Commas(us) + end);
      MembersRead(ms[1..], rest);
    }
  }

  lemma BracketFirst(open: string, body: string, close: string, s: string)
    ensures (open + body + close) + s == open + (body + (close + s))
  {
    Assoc(open + body, close, s);
    Assoc(open, body, close + s);
  }

  /** The text of a list up to its closing bracket, one element at a time. */
  lemma CommasStep(texts: seq<string>, rest: string)
    ensures texts == [] ==> Commas(texts) + rest == rest && CommaTail(texts) + rest == rest
    ensures texts != [] ==> Commas(texts) + rest == texts[0] + (CommaTail(texts[1..]) + rest)
    ensures texts != [] ==> CommaTail(texts) + rest == "," + (texts[0] + (CommaTail(texts[1..]) + rest))
  {
    if texts != [] {
      var x, tail := texts[0], CommaTail(texts[1..]);
      Assoc(x, tail, rest);
      Assoc("," + x, tail, rest);
      Assoc(",", x, tail + rest);
    }
  }

  lemma CommaTailEnds(texts: seq<string>, rest: string)
    requires rest != [] && rest[0] in "]}"
    ensures Ends(CommaTail(texts) + rest)
    ensures (CommaTail(texts) + rest)[0] == ',' <==> texts != []
  {
    CommasStep(texts, rest);
  }

  /** JSON text determines the value, and where the value ends. */
  lemma PrintSelfDelimiting(a: Value, b: Value, s: string, t: string)
    requires WellFormed(a) && WellFormed(b) && Ends(s) && Ends(t)
    requires Print(a) + s == Print(b) + t
    ensures a == b && s == t
  {
    ReadPrint(a, s);
    ReadPrint(b, t);
  }

  /** JSON.stringify prints two values alike exactly when they are the same value, member order included. */
  lemma PrintInjective(a: Value, b: Value)
    requires WellFormed(a) && WellFormed(b)
    ensures Print(a) == Print(b) <==> a == b
  {
    if Print(a) == Print(b) {
      assert Print(a) + "" == Print(a) && Print(b) + "" == Print(b);
      PrintSelfDelimiting(a, b, "", "");
    }
  }
}
