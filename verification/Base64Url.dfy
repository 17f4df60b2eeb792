/** The bit regrouping of base64 (section 4 of RFC 4648): three octets as four sextets, and back. */
module Base64Groups {
  type Byte = x: int | 0 <= x < 256

  type Sextet = x: int | 0 <= x < 64

  datatype Group = Group(a: Byte, b: Byte, c: Byte)
  datatype Quad = Quad(v: Sextet, w: Sextet, x: Sextet, y: Sextet)

  /** The 24 bits of three octets as four sextets, and back. */
  function Pack(g: Group): Quad { Quad(g.a / 4, g.a % 4 * 16 + g.b / 16, g.b % 16 * 4 + g.c / 64, g.c % 64) }

  function Unpack(q: Quad): Group { Group(q.v * 4 + q.w / 16, q.w % 16 * 16 + q.x / 4, q.x % 4 * 64 + q.y) }

  function Sextets(bytes: seq<Byte>): seq<Sextet> {
    if |bytes| == 0 then []
    else if |bytes| == 1 then var q := Pack(Group(bytes[0], 0, 0)); [q.v, q.w]
    else if |bytes| == 2 then var q := Pack(Group(bytes[0], bytes[1], 0)); [q.v, q.w, q.x]
    else var q := Pack(Group(bytes[0], bytes[1], bytes[2])); [q.v, q.w, q.x, q.y] + Sextets(bytes[3..])
  }

  /** Decoding drops the spare bits of a last partial group. */
  function Octets(v: seq<Sextet>): seq<Byte> {
    if |v| <= 1 then []
    else if |v| == 2 then var g := Unpack(Quad(v[0], v[1], 0, 0)); [g.a]
    else if |v| == 3 then var g := Unpack(Quad(v[0], v[1], v[2], 0)); [g.a, g.b]
    else var g := Unpack(Quad(v[0], v[1], v[2], v[3])); [g.a, g.b, g.c] + Octets(v[4..])
  }

  /** Both groupings read the same 24-bit number. */
  lemma PackKeepsNumber(g: Group)
    ensures var q := Pack(g); q.v * 262_144 + q.w * 4_096 + q.x * 64 + q.y == g.a * 65_536 + g.b * 256 + g.c
  {
    assert g.a == g.a / 4 * 4 + g.a % 4;
    assert g.b == g.b / 16 * 16 + g.b % 16;
    assert g.c == g.c / 64 * 64 + g.c % 64;
  }

  lemma Mix4(h: int, l: int)
    requires 0 <= l < 4
    ensures (h * 4 + l) / 4 == h && (h * 4 + l) % 4 == l
  {
  }

  lemma Mix16(h: int, l: int)
    requires 0 <= l < 16
    ensures (h * 16 + l) / 16 == h && (h * 16 + l) % 16 == l
  {
  }

  lemma UnpackPack(g: Group)
    ensures Unpack(Pack(g)) == g
  {
    var q := Pack(g);
    Mix16(g.a % 4, g.b / 16);
    Mix4(g.b % 16, g.c / 64);
    assert q.w / 16 == g.a % 4 && q.w % 16 == g.b / 16;
    assert q.x / 4 == g.b % 16 && q.x % 4 == g.c / 64;
    assert g.a / 4 * 4 + g.a % 4 == g.a && g.b / 16 * 16 + g.b % 16 == g.b && g.c / 64 * 64 + g.c % 64 == g.c;
  }

  lemma OneByte(a: Byte)
    ensures Octets(Sextets([a])) == [a]
  {
    var q := Pack(Group(a, 0, 0));
    assert Sextets([a]) == [q.v, q.w] && q.x == q.y == 0;
    assert Unpack(q) == Group(a, 0, 0) by { UnpackPack(Group(a, 0, 0)); }
  }

  lemma TwoBytes(a: Byte, b: Byte)
    ensures Octets(Sextets([a, b])) == [a, b]
  {
    var q := Pack(Group(a, b, 0));
    assert Sextets([a, b]) == [q.v, q.w, q.x] && q.y == 0;
    assert Unpack(q) == Group(a, b, 0) by { UnpackPack(Group(a, b, 0)); }
  }

  lemma ThreeBytes(a: Byte, b: Byte, c: Byte, rest: seq<Byte>)
    ensures Octets(Sextets([a, b, c] + rest)) == [a, b, c] + Octets(Sextets(rest))
  {
    var q := Pack(Group(a, b, c));
    assert ([a, b, c] + rest)[3..] == rest;
    var s := Sextets([a, b, c] + rest);
    assert s == [q.v, q.w, q.x, q.y] + Sextets(rest);
    assert s[4..] == Sextets(rest);
    assert Unpack(q) == Group(a, b, c) by { UnpackPack(Group(a, b, c)); }
  }

  lemma {:induction false} OctetsOfSextets(bytes: seq<Byte>)
    ensures Octets(Sextets(bytes)) == bytes
  {
    if |bytes| == 1 {
      OneByte(bytes[0]);
      assert bytes == [bytes[0]];
    } else if |bytes| == 2 {
      TwoBytes(bytes[0], bytes[1]);
      assert bytes == [bytes[0], bytes[1]];
    } else if |bytes| >= 3 {
      assert bytes == [bytes[0], bytes[1], bytes[2]] + bytes[3..];
      ThreeBytes(bytes[0], bytes[1], bytes[2], bytes[3..]);
      OctetsOfSextets(bytes[3..]);
    }
  }

  lemma {:induction false} SextetsLength(bytes: seq<Byte>)
    ensures |Sextets(bytes)| % 4 != 1
  {
    if |bytes| >= 3 { SextetsLength(bytes[3..]); }
  }
}

/** base64url as auth/jwt.ts builds it from btoa and atob (sections 4 and 5 of RFC 4648). */
module Base64Url {
  import opened Base64Groups

  datatype Decoded = Bytes(bytes: seq<Byte>) | Malformed

  // ---- The standard alphabet ----

  function Digit(v: int): char
    requires 0 <= v < 64
  {
    if v < 26 then 'A' + v as char
    else if v < 52 then 'a' + (v - 26) as char
    else if v < 62 then '0' + (v - 52) as char
    else if v == 62 then '+' else '/'
  }

  predicate IsDigit(c: char) { 'A' <= c <= 'Z' || 'a' <= c <= 'z' || '0' <= c <= '9' || c == '+' || c == '/' }

  function ValueOf(c: char): (v: int)
    requires IsDigit(c)
    ensures 0 <= v < 64
  {
    if 'A' <= c <= 'Z' then (c - 'A') as int
    else if 'a' <= c <= 'z' then 26 + (c - 'a') as int
    else if '0' <= c <= '9' then 52 + (c - '0') as int
    else if c == '+' then 62 else 63
  }

  lemma DigitValue(v: int)
    requires 0 <= v < 64
    ensures IsDigit(Digit(v)) && ValueOf(Digit(v)) == v
  {
  }

  function Letters(v: seq<Sextet>): (s: string)
    ensures |s| == |v|
  {
    if v == [] then [] else [Digit(v[0])] + Letters(v[1..])
  }

  predicate AllDigits(s: string) { forall c | c in s :: IsDigit(c) }

  function Values(s: string): (v: seq<Sextet>)
    requires AllDigits(s)
    ensures |v| == |s|
  {
    if s == [] then [] else assert s[0] in s; [ValueOf(s[0])] + Values(s[1..])
  }

  lemma {:induction false} ValuesOfLetters(v: seq<Sextet>)
    ensures AllDigits(Letters(v)) && Values(Letters(v)) == v
  {
    if v != [] {
      DigitValue(v[0]);
      ValuesOfLetters(v[1..]);
      assert Letters(v)[1..] == Letters(v[1..]);
    }
  }

  // ---- btoa and atob ----

  function Pads(n: nat): (s: string)
    ensures |s| == n && forall c | c in s :: c == '='
  {
    if n == 0 then [] else Pads(n - 1) + "="
  }

  function PadCount(length: nat): (n: nat)
    ensures n < 4 && (length + n) % 4 == 0
  {
    (4 - length % 4) % 4
  }

  /** What fills a text up to a multiple of four. */
  function Padded(s: string): string { s + Pads(PadCount(|s|)) }

  function Btoa(bytes: seq<Byte>): string { Padded(Letters(Sextets(bytes))) }

  predicate IsAsciiWhite(c: char) { c == '\t' || c == '\n' || c == '\U{c}' || c == '\r' || c == ' ' }

  function WithoutWhite(s: string): string {
    if s == [] then [] else (if IsAsciiWhite(s[0]) then [] else [s[0]]) + WithoutWhite(s[1..])
  }

  /** One or two trailing pads are dropped when the length is a multiple of four. */
  function WithoutPads(s: string): string {
    if |s| % 4 == 0 && |s| >= 4 && s[|s| - 1] == '=' then
      if s[|s| - 2] == '=' then s[..|s| - 2] else s[..|s| - 1]
    else s
  }

  function Atob(s: string): Decoded {
    var t := WithoutPads(WithoutWhite(s));
    if |t| % 4 == 1 || !AllDigits(t) then Malformed else Bytes(Octets(Values(t)))
  }

  // ---- base64UrlEncode, base64UrlDecode ----

  function ToUrl(s: string): string {
    if s == [] then [] else [if s[0] == '+' then '-' else if s[0] == '/' then '_' else s[0]] + ToUrl(s[1..])
  }

  function FromUrl(s: string): string {
    if s == [] then [] else [if s[0] == '-' then '+' else if s[0] == '_' then '/' else s[0]] + FromUrl(s[1..])
  }

  /** `.replace(/=+$/, '')` */
  function StripPads(s: string): string {
    if s != [] && s[|s| - 1] == '=' then StripPads(s[..|s| - 1]) else s
  }

  function Encode(bytes: seq<Byte>): string { StripPads(ToUrl(Btoa(bytes))) }

  /** `s.padEnd(target, '=')` */
  function PadEnd(s: string, target: nat): string { if target <= |s| then s else s + Pads(target - |s|) }

  function Decode(s: string): Decoded { Atob(Padded(FromUrl(s))) }

  /** base64UrlDecode, with its padding loop. */
  method Base64UrlDecode(str: string) returns (r: Decoded)
    ensures r == Decode(str)
  {
    var base64 := FromUrl(str);
    ghost var n := PadCount(|base64|);
    ghost var k := 0;
    while |base64| % 4 != 0
      invariant 0 <= k <= n == PadCount(|FromUrl(str)|)
      invariant base64 == FromUrl(str) + Pads(k)
      decreases n - k
    {
      base64 := base64 + "=";
      k := k + 1;
    }
    assert k == n;
    r := Atob(base64);
  }

  /** The logout route's padEnd pads exactly as the loop does, at every length. */
  lemma PadEndIsPadded(s: string)
    ensures PadEnd(s, |s| + (4 - |s| % 4) % 4) == Padded(s)
    ensures |Padded(s)| % 4 == 0
  {
    if |s| % 4 == 0 { assert s + Pads(0) == s; }
  }

  // ---- Decoding undoes encoding ----

  lemma {:induction false} UrlRoundTrip(s: string)
    requires AllDigits(s)
    ensures FromUrl(ToUrl(s)) == s && |ToUrl(s)| == |s|
    ensures forall c | c in ToUrl(s) :: c != '=' && c != '.' && c != '+' && c != '/'
  {
    if s != [] {
      assert s[0] in s;
      UrlRoundTrip(s[1..]);
    }
  }

  lemma {:induction false} ToUrlConcat(s: string, t: string)
    ensures ToUrl(s + t) == ToUrl(s) + ToUrl(t)
  {
    if s == [] {
      assert s + t == t;
    } else {
      assert (s + t)[1..] == s[1..] + t;
      ToUrlConcat(s[1..], t);
    }
  }

  lemma {:induction false} ToUrlPads(n: nat)
    ensures ToUrl(Pads(n)) == Pads(n)
  {
    if n > 0 {
      ToUrlPads(n - 1);
      ToUrlConcat(Pads(n - 1), "=");
    }
  }

  predicate EndsInPad(s: string) { s != [] && s[|s| - 1] == '=' }

  lemma StripOne(t: string)
    ensures StripPads(t + "=") == StripPads(t)
  {
    assert (t + "=")[..|t|] == t;
  }

  lemma OneMorePad(s: string, n: nat)
    requires n > 0
    ensures s + Pads(n) == (s + Pads(n - 1)) + "="
  {
  }

  lemma {:induction false} StripAddedPads(s: string, n: nat)
    requires !EndsInPad(s)
    ensures StripPads(s + Pads(n)) == s
  {
    if n == 0 {
      assert s + Pads(0) == s;
    } else {
      StripAddedPads(s, n - 1);
      StripOne(s + Pads(n - 1));
      OneMorePad(s, n);
    }
  }

  lemma DigitsEnd(s: string)
    requires AllDigits(s)
    ensures !EndsInPad(s)
  {
    if s != [] { assert s[|s| - 1] in s; }
  }

  lemma UrlOfPadded(core: string)
    requires AllDigits(core)
    ensures StripPads(ToUrl(Padded(core))) == ToUrl(core)
  {
    var n := PadCount(|core|);
    UrlRoundTrip(core);
    ToUrlConcat(core, Pads(n));
    ToUrlPads(n);
    if core != [] { assert ToUrl(core)[|core| - 1] in ToUrl(core); }
    StripAddedPads(ToUrl(core), n);
  }

  /** The encoding is the letters in the URL alphabet, without padding. */
  lemma EncodeIsLetters(bytes: seq<Byte>)
    ensures Encode(bytes) == ToUrl(Letters(Sextets(bytes)))
    ensures forall c | c in Encode(bytes) :: c != '=' && c != '.' && c != '+' && c != '/'
  {
    ValuesOfLetters(Sextets(bytes));
    UrlRoundTrip(Letters(Sextets(bytes)));
    UrlOfPadded(Letters(Sextets(bytes)));
  }

  lemma {:induction false} NoWhite(s: string)
    requires forall c | c in s :: !IsAsciiWhite(c)
    ensures WithoutWhite(s) == s
  {
    if s != [] {
      assert s[0] in s;
      NoWhite(s[1..]);
    }
  }

  lemma WithoutOnePad(s: string)
    requires !EndsInPad(s) && |s| % 4 == 3
    ensures WithoutPads(s + "=") == s
  {
    var t := s + "=";
    assert t[..|t| - 1] == s && t[|t| - 2] == s[|s| - 1];
  }

  lemma WithoutTwoPads(s: string)
    requires |s| % 4 == 2
    ensures WithoutPads(s + "==") == s
  {
    var t := s + "==";
    assert t[..|t| - 2] == s;
  }

  lemma PadsNeeded(s: string)
    requires |s| % 4 != 1
    ensures Padded(s) == if |s| % 4 == 0 then s else if |s| % 4 == 3 then s + "=" else s + "=="
  {
    assert Pads(0) == "" && Pads(1) == "=" && Pads(2) == "==";
    assert PadCount(|s|) == if |s| % 4 == 0 then 0 else if |s| % 4 == 3 then 1 else 2;
  }

  lemma WithoutAddedPads(s: string)
    requires !EndsInPad(s) && |s| % 4 != 1
    ensures WithoutPads(Padded(s)) == s
  {
    PadsNeeded(s);
    if |s| % 4 == 0 {
    } else if |s| % 4 == 3 {
      WithoutOnePad(s);
    } else {
      WithoutTwoPads(s);
    }
  }

  /** atob undoes the padding and the letters. */
  lemma AtobOfPadded(v: seq<Sextet>)
    requires |v| % 4 != 1
    ensures Atob(Padded(Letters(v))) == Bytes(Octets(v))
  {
    var core := Letters(v);
    ValuesOfLetters(v);
    DigitsEnd(core);
    NoWhite(Padded(core));
    WithoutAddedPads(core);
  }

  /** base64UrlDecode undoes base64UrlEncode on every byte string. */
  lemma DecodeEncode(bytes: seq<Byte>)
    ensures Decode(Encode(bytes)) == Bytes(bytes)
  {
    EncodeIsLetters(bytes);
    ValuesOfLetters(Sextets(bytes));
    UrlRoundTrip(Letters(Sextets(bytes)));
    SextetsLength(bytes);
    OctetsOfSextets(bytes);
    AtobOfPadded(Sextets(bytes));
  }

  // ---- The alphabet, letter by letter, and what decoding accepts ----

  /** Table 2 of RFC 4648. */
  const UPPER := "ABCDEFGHIJKLMNOPQRSTUVWXYZ"
  const LOWER := "abcdefghijklmnopqrstuvwxyz"
  const URL_ALPHABET := UPPER + (LOWER + ("0123456789" + "-_"))

  function ToUrlChar(c: char): char { if c == '+' then '-' else if c == '/' then '_' else c }

  lemma {:induction false} ToUrlAt(s: string, i: nat)
    requires i < |s|
    ensures |ToUrl(s)| == |s| && ToUrl(s)[i] == ToUrlChar(s[i])
  {
    if |s| > 1 { ToUrlAt(s[1..], if i == 0 then 0 else i - 1); }
  }

  lemma {:induction false} LetterAt(v: seq<Sextet>, i: nat)
    requires i < |v|
    ensures Letters(v)[i] == Digit(v[i])
  {
    if i > 0 { LetterAt(v[1..], i - 1); }
  }

  lemma DigitSpelled(v: int)
    requires 0 <= v < 64
    ensures |URL_ALPHABET| == 64 && ToUrlChar(Digit(v)) == URL_ALPHABET[v]
  {
    if v < 26 {
      assert URL_ALPHABET[v] == UPPER[v];
    } else if v < 52 {
      assert URL_ALPHABET[v] == LOWER[v - 26];
    } else {
      assert URL_ALPHABET[v] == ("0123456789" + "-_")[v - 52];
    }
  }

  /** The text spells these numbers in the URL alphabet. */
  ghost predicate Spells(s: string, v: seq<Sextet>) {
    |s| == |v| && forall i | 0 <= i < |s| :: v[i] < |URL_ALPHABET| && s[i] == URL_ALPHABET[v[i]]
  }

  /** An encoding spells the 6-bit groups of its bytes. */
  lemma EncodeSpells(bytes: seq<Byte>)
    ensures Spells(Encode(bytes), Sextets(bytes))
  {
    var v := Sextets(bytes);
    EncodeIsLetters(bytes);
    if v == [] { assert ToUrl(Letters(v)) == []; } else { ToUrlAt(Letters(v), 0); }
    forall i | 0 <= i < |v| ensures Encode(bytes)[i] == URL_ALPHABET[v[i]] {
      ToUrlAt(Letters(v), i);
      LetterAt(v, i);
      DigitSpelled(v[i]);
    }
  }

  lemma {:induction false} SpelledLetters(s: string, v: seq<Sextet>)
    requires Spells(s, v)
    ensures FromUrl(s) == Letters(v)
  {
    if s != [] {
      DigitSpelled(v[0]);
      assert URL_ALPHABET[v[0]] == s[0];
      forall i | 0 <= i < |s| - 1 ensures v[1..][i] < |URL_ALPHABET| && s[1..][i] == URL_ALPHABET[v[1..][i]] {
        assert v[i + 1] < |URL_ALPHABET| && s[i + 1] == URL_ALPHABET[v[i + 1]];
      }
      SpelledLetters(s[1..], v[1..]);
    }
  }

  lemma DropTwoPads(core: string)
    requires |core| % 4 == 1
    ensures WithoutPads(core + "===") == core + "="
  {
    var t := core + "===";
    assert t[|t| - 1] == '=' && t[|t| - 2] == '=';
    assert t[..|t| - 2] == core + "=";
  }

  lemma ThreePadsAdded(core: string)
    requires |core| % 4 == 1
    ensures Padded(core) == core + "==="
  {
    assert Pads(1) == "=" && Pads(2) == "==" && Pads(3) == "===";
    assert PadCount(|core|) == 3;
  }

  lemma NoWhiteInPadded(core: string)
    requires AllDigits(core)
    ensures WithoutWhite(core + "===") == core + "==="
  {
    var t := core + "===";
    forall c | c in t ensures !IsAsciiWhite(c) { assert c in core || c == '='; }
    NoWhite(t);
  }

  lemma PadIsNoDigit(core: string)
    ensures !AllDigits(core + "=")
  {
    assert (core + "=")[|core|] in core + "=";
  }

  lemma ThreePads(core: string)
    requires AllDigits(core) && |core| % 4 == 1
    ensures Atob(Padded(core)) == Malformed
  {
    ThreePadsAdded(core);
    NoWhiteInPadded(core);
    DropTwoPads(core);
    PadIsNoDigit(core);
  }

  /** Decoding a text in the alphabet reads its numbers, and fails exactly when one is left over. */
  lemma DecodeSpelled(s: string, v: seq<Sextet>)
    requires Spells(s, v)
    ensures Decode(s) == if |s| % 4 == 1 then Malformed else Bytes(Octets(v))
  {
    SpelledLetters(s, v);
    ValuesOfLetters(v);
    if |s| % 4 == 1 { ThreePads(Letters(v)); } else { AtobOfPadded(v); }
  }

  lemma {:induction false} FromUrlKeeps(s: string, c: char)
    requires c in s && c != '-' && c != '_'
    ensures c in FromUrl(s)
  {
    if s[0] != c { FromUrlKeeps(s[1..], c); }
  }

  lemma {:induction false} WithoutWhiteKeeps(s: string, c: char)
    requires c in s && !IsAsciiWhite(c)
    ensures c in WithoutWhite(s)
  {
    if s[0] != c { WithoutWhiteKeeps(s[1..], c); }
  }

  lemma WithoutPadsKeeps(s: string, c: char)
    requires c in s && c != '='
    ensures c in WithoutPads(s)
  {
    var i :| 0 <= i < |s| && s[i] == c;
    assert i < |WithoutPads(s)| ==> WithoutPads(s)[i] == c;
  }

  lemma DigitIsSpelled(c: char)
    requires IsDigit(c)
    ensures c in URL_ALPHABET || c == '+' || c == '/'
  {
    DigitSpelled(ValueOf(c));
    assert Digit(ValueOf(c)) == c;
    assert URL_ALPHABET[ValueOf(c)] == ToUrlChar(c);
  }

  /** A character outside both alphabets, the padding and the ASCII white space makes a text malformed. */
  lemma ForeignIsMalformed(s: string, c: char)
    requires c in s && c !in "+/=\t\n\U{c}\r " && c !in URL_ALPHABET
    ensures Decode(s) == Malformed
  {
    assert c != '-' && c != '_' by { assert URL_ALPHABET[62] == '-' && URL_ALPHABET[63] == '_'; }
    FromUrlKeeps(s, c);
    WithoutWhiteKeeps(Padded(FromUrl(s)), c);
    WithoutPadsKeeps(WithoutWhite(Padded(FromUrl(s))), c);
    if IsDigit(c) { DigitIsSpelled(c); }
  }
}
