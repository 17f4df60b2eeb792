/** ES256 tokens with key rotation (auth/jwt.ts). Signatures are ideal and JSON.parse inverts JSON.stringify; what the
    platform provides is a parameter. Times are milliseconds, `exp` is in seconds. */
module Jwt {
  import opened Base64Groups
  import opened Json
  import opened Options
  import opened Revocation
  import Base64Url

  // ---- Texts and bytes: btoa takes characters up to U+00FF, and throws on others ----

  predicate Latin1(s: string) { forall c | c in s :: c as int < 256 }

  function ByteAt(s: string, i: nat): Byte
    requires Latin1(s) && i < |s|
  {
    assert s[i] in s;
    s[i] as int
  }

  function BytesOf(s: string): seq<Byte>
    requires Latin1(s)
  {
    seq(|s|, i requires 0 <= i < |s| => ByteAt(s, i))
  }

  function TextOf(bytes: seq<Byte>): string { seq(|bytes|, i requires 0 <= i < |bytes| => bytes[i] as char) }

  function EncodeText(s: string): Option<string> { if Latin1(s) then Some(Base64Url.Encode(BytesOf(s))) else None }

  function DecodeText(s: string): Option<string> {
    match Base64Url.Decode(s)
    case Bytes(bytes) => Some(TextOf(bytes))
    case Malformed => None
  }

  lemma DecodeEncodedText(s: string)
    requires Latin1(s)
    ensures DecodeText(EncodeText(s).value) == Some(s)
  {
    Base64Url.DecodeEncode(BytesOf(s));
    assert TextOf(BytesOf(s)) == s;
  }

  // ---- `token.split('.')` ----

  predicate Dotless(s: string) { '.' !in s }

  function Split(s: string): (r: seq<string>)
    ensures |r| >= 1
  {
    if s == [] then [""]
    else if s[0] == '.' then [""] + Split(s[1..])
    else [[s[0]] + Split(s[1..])[0]] + Split(s[1..])[1..]
  }

  function Join(parts: seq<string>): string
    requires parts != []
  {
    if |parts| == 1 then parts[0] else parts[0] + ("." + Join(parts[1..]))
  }

  lemma {:induction false} SplitCuts(a: string, rest: string)
    requires Dotless(a)
    ensures Split(a + ("." + rest)) == [a] + Split(rest)
  {
    var s := a + ("." + rest);
    if a == [] {
      assert s == "." + rest && s[1..] == rest;
    } else {
      assert s[1..] == a[1..] + ("." + rest) && s[0] == a[0] && a[0] in a;
      SplitCuts(a[1..], rest);
      assert a == [a[0]] + a[1..];
      assert ([a[1..]] + Split(rest))[1..] == Split(rest);
    }
  }

  lemma {:induction false} SplitPlain(a: string)
    requires Dotless(a)
    ensures Split(a) == [a]
  {
    if a != [] {
      assert a[0] in a;
      SplitPlain(a[1..]);
      assert a == [a[0]] + a[1..];
    }
  }

  lemma {:induction false} JoinSplit(s: string)
    ensures Join(Split(s)) == s
  {
    if s != [] {
      JoinSplit(s[1..]);
      var rest := Split(s[1..]);
      assert s == [s[0]] + s[1..];
      if s[0] == '.' {
        assert Split(s)[1..] == rest;
        assert Join(Split(s)) == "" + ("." + s[1..]);
      } else {
        JoinFirst(s[0], rest);
      }
    }
  }

  lemma JoinFirst(c: char, parts: seq<string>)
    requires parts != []
    ensures Join([[c] + parts[0]] + parts[1..]) == [c] + Join(parts)
  {
    assert ([[c] + parts[0]] + parts[1..])[1..] == parts[1..];
    if |parts| > 1 { Assoc([c], parts[0], "." + Join(parts[1..])); }
  }

  /** The three segments and the token determine each other. */
  lemma SplitThree(h: string, b: string, sig: string)
    requires Dotless(h) && Dotless(b) && Dotless(sig)
    ensures Split((h + ("." + b)) + ("." + sig)) == [h, b, sig]
  {
    Assoc(h, "." + b, "." + sig);
    Assoc(".", b, "." + sig);
    SplitCuts(h, b + ("." + sig));
    SplitCuts(b, sig);
    SplitPlain(sig);
  }

  // ---- Claims ----

  /** `{ ...payload, exp, jti }` */
  function Claims(payload: seq<Member>, exp: int, jti: string): seq<Member> {
    Put(Put(payload, "exp", Num(Decimal(exp))), "jti", Str(jti))
  }

  /** The claims a token carries: the caller's, with `exp` and `jti` overwritten by signJwt's own. */
  lemma ClaimsOverride(payload: seq<Member>, exp: int, jti: string, key: string)
    ensures Get(Claims(payload, exp, jti), key) ==
            if key == "jti" then Some(Str(jti)) else if key == "exp" then Some(Num(Decimal(exp))) else Get(payload, key)
  {
    GetPut(payload, "exp", Num(Decimal(exp)), key);
    GetPut(Put(payload, "exp", Num(Decimal(exp))), "jti", Str(jti), key);
  }

  // ---- The platform ----

  datatype KeyPair = KeyPair(key: nat, kid: string)

  datatype Platform = Platform(
    sign: (nat, string, nat) -> seq<Byte>,          // key, data, randomness
    verify: (nat, seq<Byte>, string) -> bool,
    parse: string -> Option<Value>,                 // JSON.parse
    number: Value -> Option<real>,                  // as a number; None is NaN
    text: Value -> string)                          // as the parameter of a query

  /** A signature verifies under its own key on its own data, and nowhere else. */
  ghost predicate Ideal(p: Platform) {
    forall k, data, nonce, k', data' :: p.verify(k', p.sign(k, data, nonce), data') <==> k' == k && data' == data
  }

  /** Number.MAX_SAFE_INTEGER */
  const MAX_SAFE_INTEGER := 0x1F_FFFF_FFFF_FFFF

  predicate Safe(n: int) { -MAX_SAFE_INTEGER <= n <= MAX_SAFE_INTEGER }

  /** The numbers in `v` are texts that JSON.stringify prints: JSON.parse reads such a text as that very number. */
  ghost predicate Printed(p: Platform, v: Value) {
    match v
    case Num(text) => p.parse(text) == Some(v)
    case Arr(items) => forall x | x in items :: Printed(p, x)
    case Obj(ms) => forall m | m in ms :: Printed(p, m.value)
    case _ => true
  }

  /** JSON.parse undoes JSON.stringify, and safe integers are printed in decimal. */
  ghost predicate Faithful(p: Platform) {
    && (forall v | WellFormed(v) && Printed(p, v) :: p.parse(Print(v)) == Some(v))
    && (forall n | Safe(n) :: Printed(p, Num(Decimal(n))) && p.number(Num(Decimal(n))) == Some(n as real))
    && (forall s :: p.text(Str(s)) == s)
  }

  // ---- signJwt ----

  datatype Issue = Issue(payload: seq<Member>, ttlSeconds: int, now: int, jti: string, nonce: nat)

  function Exp(i: Issue): int { i.now / 1000 + i.ttlSeconds }

  /** An object of three strings. */
  function Header(k1: string, v1: string, k2: string, v2: string, k3: string, v3: string): Value {
    Obj([Member(k1, Str(v1)), Member(k2, Str(v2)), Member(k3, Str(v3))])
  }

  function HeaderText(kid: string): string { Print(Header("alg", "ES256", "typ", "JWT", "kid", kid)) }

  function ClaimsText(i: Issue): string { Print(Obj(Claims(i.payload, Exp(i), i.jti))) }

  /** What signJwt is given: a JSON object, and times whose sum is a safe integer. */
  ghost predicate Issuable(p: Platform, i: Issue) {
    WellFormed(Obj(i.payload)) && Printed(p, Obj(i.payload)) && Safe(Exp(i))
  }

  predicate Encodable(pair: KeyPair, i: Issue) { Latin1(HeaderText(pair.kid)) && Latin1(ClaimsText(i)) }

  function HeaderSegment(pair: KeyPair): string
    requires Latin1(HeaderText(pair.kid))
  {
    Base64Url.Encode(BytesOf(HeaderText(pair.kid)))
  }

  function BodySegment(i: Issue): string
    requires Latin1(ClaimsText(i))
  {
    Base64Url.Encode(BytesOf(ClaimsText(i)))
  }

  /** `${encodedHeader}.${encodedPayload}` */
  function SigningInput(pair: KeyPair, i: Issue): string
    requires Encodable(pair, i)
  {
    HeaderSegment(pair) + ("." + BodySegment(i))
  }

  function Signature(p: Platform, pair: KeyPair, i: Issue): seq<Byte>
    requires Encodable(pair, i)
  {
    p.sign(pair.key, SigningInput(pair, i), i.nonce)
  }

  function SignedToken(p: Platform, pair: KeyPair, i: Issue): string
    requires Encodable(pair, i)
  {
    SigningInput(pair, i) + ("." + Base64Url.Encode(Signature(p, pair, i)))
  }

  // ---- verifyJwt ----

  datatype Failure =
    | InvalidFormat | MalformedEncoding | InvalidSignature | MalformedPayload | TokenExpired | TokenRevoked

  datatype Outcome = Accepted(payload: Value) | Rejected(reason: Failure)

  predicate Truthy(p: Platform, v: Option<Value>) {
    match v
    case None => false
    case Some(Null) => false
    case Some(Bool(b)) => b
    case Some(Num(text)) => p.number(Num(text)) != Some(0.0)
    case Some(Str(s)) => s != ""
    case _ => true
  }

  function Field(v: Value, key: string): Option<Value> { if v.Obj? then Get(v.members, key) else None }

  predicate Late(p: Platform, exp: Option<Value>, now: int) {
    && Truthy(p, exp)
    && var n := p.number(exp.value);
       n.Some? && n.value < (now / 1000) as real
  }

  function Admitted(p: Platform, payload: Value, now: int, revoked: Table): Outcome {
    if payload.Null? then Rejected(MalformedPayload)
    else if Late(p, Field(payload, "exp"), now) then Rejected(TokenExpired)
    else if Truthy(p, Field(payload, "jti")) && p.text(Field(payload, "jti").value) in revoked then
      Rejected(TokenRevoked)
    else Accepted(payload)
  }

  predicate SomeKeyVerifies(p: Platform, keys: seq<KeyPair>, signature: seq<Byte>, data: string) {
    exists k | 0 <= k < |keys| :: p.verify(keys[k].key, signature, data)
  }

  function AfterSignature(p: Platform, body: string, now: int, revoked: Table): Outcome {
    match DecodeText(body)
    case None => Rejected(MalformedEncoding)
    case Some(text) =>
      match p.parse(text)
      case None => Rejected(MalformedPayload)
      case Some(payload) => Admitted(p, payload, now, revoked)
  }

  function Verdict(p: Platform, keys: seq<KeyPair>, token: string, now: int, revoked: Table): Outcome {
    var parts := Split(token);
    if |parts| != 3 then Rejected(InvalidFormat)
    else
      match Base64Url.Decode(parts[2])
      case Malformed => Rejected(MalformedEncoding)
      case Bytes(signature) =>
        if !SomeKeyVerifies(p, keys, signature, parts[0] + ("." + parts[1])) then Rejected(InvalidSignature)
        else AfterSignature(p, parts[1], now, revoked)
  }

  function Pairs(current: Option<KeyPair>, previous: Option<KeyPair>): seq<KeyPair> {
    (if current.Some? then [current.value] else []) + (if previous.Some? then [previous.value] else [])
  }

  /** The module's key store. What the environment configures is fixed; it is loaded on first use. */
  class KeyStore {
    const p: Platform
    const configured: Option<KeyPair>     // JWT_EC_PRIVATE_KEY
    const configuredOld: Option<KeyPair>  // JWT_EC_PRIVATE_KEY_OLD
    const generated: KeyPair
    var current: Option<KeyPair>
    var previous: Option<KeyPair>
    var initialised: bool

    /** The key that signs. */
    function Signing(): KeyPair { if configured.Some? then configured.value else generated }

    ghost predicate Valid() reads this {
      if initialised then current == Some(Signing()) && previous == configuredOld else current == previous == None
    }

    constructor (p: Platform, configured: Option<KeyPair>, configuredOld: Option<KeyPair>, generated: KeyPair)
      ensures Valid() && !initialised
      ensures this.p == p && this.configured == configured && this.configuredOld == configuredOld
      ensures this.generated == generated
    {
      this.p, this.configured, this.configuredOld, this.generated := p, configured, configuredOld, generated;
      current, previous, initialised := None, None, false;
    }

    method InitKeyStore()
      requires Valid()
      modifies this
      ensures Valid() && initialised
      ensures current == if configured.Some? then configured else Some(generated)
      ensures previous == configuredOld
      ensures old(initialised) ==> current == old(current) && previous == old(previous)
    {
      if initialised { return; }
      if configured.Some? {
        current := configured;
      } else {
        current := Some(generated);
      }
      if configuredOld.Some? {
        previous := configuredOld;
      }
      initialised := true;
    }

    method GetVerificationKeyPairs() returns (pairs: seq<KeyPair>)
      requires Valid()
      modifies this
      ensures Valid() && pairs == Pairs(Some(Signing()), configuredOld)
      ensures pairs == [if configured.Some? then configured.value else generated]
                       + if configuredOld.Some? then [configuredOld.value] else []
    {
      InitKeyStore();
      pairs := [];
      if current.Some? { pairs := pairs + [current.value]; }
      if previous.Some? { pairs := pairs + [previous.value]; }
    }

    /** Fails exactly when a text to encode leaves Latin-1: btoa throws, and JSON.stringify does not escape. */
    method SignJwt(i: Issue) returns (token: Option<string>)
      requires Valid()
      modifies this
      ensures Valid()
      ensures token == if Encodable(Signing(), i) then Some(SignedToken(p, Signing(), i)) else None
    {
      InitKeyStore();
      var pair := current.value;
      var encodedHeader := EncodeText(HeaderText(pair.kid));
      if encodedHeader.None? { return None; }
      var encodedPayload := EncodeText(ClaimsText(i));
      if encodedPayload.None? { return None; }
      var dataToSign := encodedHeader.value + ("." + encodedPayload.value);
      var signature := p.sign(pair.key, dataToSign, i.nonce);
      token := Some(dataToSign + ("." + Base64Url.Encode(signature)));
    }

    /** The loop over the active keys stops at the first that verifies. */
    method VerifyJwt(token: string, now: int, revocations: RevokedTokens) returns (r: Outcome)
      requires Valid()
      modifies this
      ensures Valid() && r == Verdict(p, Pairs(Some(Signing()), configuredOld), token, now, revocations.rows)
    {
      var parts := Split(token);
      if |parts| != 3 { return Rejected(InvalidFormat); }
      var dataToVerify := parts[0] + ("." + parts[1]);
      var decoded := Base64Url.Base64UrlDecode(parts[2]);
      if decoded.Malformed? { return Rejected(MalformedEncoding); }
      var keyPairs := GetVerificationKeyPairs();
      var verified := false;
      for k := 0 to |keyPairs|
        invariant forall j | 0 <= j < k :: !p.verify(keyPairs[j].key, decoded.bytes, dataToVerify)
        invariant !verified
      {
        if p.verify(keyPairs[k].key, decoded.bytes, dataToVerify) {
          verified := true;
          break;
        }
      }
      if !verified { return Rejected(InvalidSignature); }
      var bytes := Base64Url.Base64UrlDecode(parts[1]);
      if bytes.Malformed? { return Rejected(MalformedEncoding); }
      var payload := p.parse(TextOf(bytes.bytes));
      if payload.None? || payload.value.Null? { return Rejected(MalformedPayload); }
      if Late(p, Field(payload.value, "exp"), now) { return Rejected(TokenExpired); }
      var jti := Field(payload.value, "jti");
      if Truthy(p, jti) {
        var revoked := revocations.IsRevoked(p.text(jti.value));
        if revoked { return Rejected(TokenRevoked); }
      }
      r := Accepted(payload.value);
    }
  }

  // ---- What verification says of any token ----

  /** undefined, null, false, 0 and the empty string */
  ghost predicate Falsy(p: Platform, v: Option<Value>) {
    || v == None || v == Some(Null) || v == Some(Bool(false)) || v == Some(Str(""))
    || (v.Some? && v.value.Num? && p.number(v.value) == Some(0.0))
  }

  /** Three segments, the third of which is a signature of the first two under one of these keys. */
  ghost predicate Vouched(p: Platform, keys: seq<KeyPair>, token: string) {
    var s := Split(token);
    && |s| == 3 && Base64Url.Decode(s[2]).Bytes?
    && exists pair | pair in keys :: p.verify(pair.key, Base64Url.Decode(s[2]).bytes, s[0] + ("." + s[1]))
  }

  /** The second segment is the encoding of JSON text for this value. */
  ghost predicate Carries(p: Platform, token: string, v: Value) {
    var s := Split(token);
    && |s| == 3 && Base64Url.Decode(s[1]).Bytes?
    && p.parse(TextOf(Base64Url.Decode(s[1]).bytes)) == Some(v)
  }

  /** A truthy `exp` lies before the current second. */
  ghost predicate Expired(p: Platform, v: Value, now: int) {
    var exp := Field(v, "exp");
    && !Falsy(p, exp) && p.number(exp.value).Some?
    && p.number(exp.value).value < (now / 1000) as real
  }

  /** A truthy `jti` is in the table. */
  ghost predicate InTable(p: Platform, v: Value, revoked: Table) {
    var jti := Field(v, "jti");
    !Falsy(p, jti) && p.text(jti.value) in revoked
  }

  lemma TruthyIff(p: Platform, v: Option<Value>)
    ensures Truthy(p, v) <==> !Falsy(p, v)
  {
  }

  lemma AdmittedIff(p: Platform, v: Value, now: int, revoked: Table)
    ensures Late(p, Field(v, "exp"), now) <==> Expired(p, v, now)
    ensures Admitted(p, v, now, revoked) ==
            if v.Null? then Rejected(MalformedPayload)
            else if Expired(p, v, now) then Rejected(TokenExpired)
            else if InTable(p, v, revoked) then Rejected(TokenRevoked)
            else Accepted(v)
  {
    TruthyIff(p, Field(v, "exp"));
    TruthyIff(p, Field(v, "jti"));
  }

  lemma VouchedIff(p: Platform, keys: seq<KeyPair>, token: string)
    requires |Split(token)| == 3 && Base64Url.Decode(Split(token)[2]).Bytes?
    ensures var s := Split(token);
            SomeKeyVerifies(p, keys, Base64Url.Decode(s[2]).bytes, s[0] + ("." + s[1])) <==> Vouched(p, keys, token)
  {
    var s := Split(token);
    if SomeKeyVerifies(p, keys, Base64Url.Decode(s[2]).bytes, s[0] + ("." + s[1])) {
      var k :| 0 <= k < |keys| && p.verify(keys[k].key, Base64Url.Decode(s[2]).bytes, s[0] + ("." + s[1]));
      assert keys[k] in keys;
    }
  }

  lemma BodyAccepted(p: Platform, body: string, now: int, revoked: Table, v: Value)
    ensures AfterSignature(p, body, now, revoked) == Accepted(v) <==>
            && Base64Url.Decode(body).Bytes? && p.parse(TextOf(Base64Url.Decode(body).bytes)) == Some(v)
            && v != Null && !Expired(p, v, now) && !InTable(p, v, revoked)
  {
    AdmittedIff(p, v, now, revoked);
    forall x ensures Admitted(p, x, now, revoked).Accepted? ==> Admitted(p, x, now, revoked) == Accepted(x) {
      AdmittedIff(p, x, now, revoked);
    }
  }

  /** Any token whatever is accepted, with this payload, exactly when some active key vouches for it, it carries that
      payload, and the payload is not null, not expired and not revoked. */
  lemma AcceptedExactly(p: Platform, keys: seq<KeyPair>, token: string, now: int, revoked: Table, v: Value)
    ensures Verdict(p, keys, token, now, revoked) == Accepted(v) <==>
            && Vouched(p, keys, token) && Carries(p, token, v)
            && v != Null && !Expired(p, v, now) && !InTable(p, v, revoked)
  {
    var s := Split(token);
    if |s| == 3 && Base64Url.Decode(s[2]).Bytes? {
      VouchedIff(p, keys, token);
      BodyAccepted(p, s[1], now, revoked, v);
    }
  }

  /** And otherwise which error it is: the checks in order. */
  lemma RejectedExactly(p: Platform, keys: seq<KeyPair>, token: string, now: int, revoked: Table)
    ensures var s, r := Split(token), Verdict(p, keys, token, now, revoked);
            && (r == Rejected(InvalidFormat) <==> |s| != 3)
            && (r == Rejected(MalformedEncoding) <==>
                  && |s| == 3
                  && (Base64Url.Decode(s[2]).Malformed?
                      || (Vouched(p, keys, token) && Base64Url.Decode(s[1]).Malformed?)))
            && (r == Rejected(InvalidSignature) <==>
                  |s| == 3 && Base64Url.Decode(s[2]).Bytes? && !Vouched(p, keys, token))
            && (r == Rejected(MalformedPayload) <==>
                  && Vouched(p, keys, token) && Base64Url.Decode(s[1]).Bytes?
                  && forall v | Carries(p, token, v) :: v == Null)
            && (r == Rejected(TokenExpired) <==>
                  Vouched(p, keys, token) && exists v :: Carries(p, token, v) && v != Null && Expired(p, v, now))
            && (r == Rejected(TokenRevoked) <==>
                  && Vouched(p, keys, token)
                  && exists v ::
                       Carries(p, token, v) && v != Null && !Expired(p, v, now) && InTable(p, v, revoked))
  {
    var s := Split(token);
    if |s| == 3 && Base64Url.Decode(s[2]).Bytes? {
      VouchedIff(p, keys, token);
      if Base64Url.Decode(s[1]).Bytes? {
        var parsed := p.parse(TextOf(Base64Url.Decode(s[1]).bytes));
        if parsed.Some? {
          AdmittedIff(p, parsed.value, now, revoked);
          assert Carries(p, token, parsed.value);
        }
      }
    }
  }

  // ---- What verification says of a signed token ----

  predicate HasKey(keys: seq<KeyPair>, key: nat) { exists k | 0 <= k < |keys| :: keys[k].key == key }

  /** An ideal signature is accepted exactly for its own key and its own data. */
  lemma VerifiesIff(p: Platform, keys: seq<KeyPair>, key: nat, data: string, nonce: nat, data': string)
    requires Ideal(p)
    ensures SomeKeyVerifies(p, keys, p.sign(key, data, nonce), data') <==> HasKey(keys, key) && data' == data
  {
    assert forall k | 0 <= k < |keys| ::
        p.verify(keys[k].key, p.sign(key, data, nonce), data') <==> keys[k].key == key && data' == data;
  }

  lemma SignedParts(p: Platform, pair: KeyPair, i: Issue)
    requires Encodable(pair, i)
    ensures Split(SignedToken(p, pair, i))
            == [HeaderSegment(pair), BodySegment(i), Base64Url.Encode(Signature(p, pair, i))]
    ensures Base64Url.Decode(Base64Url.Encode(Signature(p, pair, i))) == Base64Url.Bytes(Signature(p, pair, i))
  {
    var signature := Signature(p, pair, i);
    Base64Url.EncodeIsLetters(BytesOf(HeaderText(pair.kid)));
    Base64Url.EncodeIsLetters(BytesOf(ClaimsText(i)));
    Base64Url.EncodeIsLetters(signature);
    Base64Url.DecodeEncode(signature);
    SplitThree(HeaderSegment(pair), BodySegment(i), Base64Url.Encode(signature));
  }

  lemma PutKeeps(p: Platform, ms: seq<Member>, key: string, v: Value)
    requires WellFormed(Obj(ms)) && Printed(p, Obj(ms)) && WellFormed(v) && Printed(p, v)
    ensures WellFormed(Obj(Put(ms, key, v))) && Printed(p, Obj(Put(ms, key, v)))
  {
    PutMembers(ms, key, v);
  }

  lemma ExpiryText(p: Platform, exp: int)
    requires Faithful(p) && Safe(exp)
    ensures WellFormed(Num(Decimal(exp))) && Printed(p, Num(Decimal(exp)))
  {
    if exp < 0 { DigitsAreNumber(-exp); } else { DigitsAreNumber(exp); }
  }

  lemma ClaimsParse(p: Platform, i: Issue)
    requires Faithful(p) && Issuable(p, i)
    ensures p.parse(ClaimsText(i)) == Some(Obj(Claims(i.payload, Exp(i), i.jti)))
  {
    var exp := Num(Decimal(Exp(i)));
    ExpiryText(p, Exp(i));
    PutKeeps(p, i.payload, "exp", exp);
    PutKeeps(p, Put(i.payload, "exp", exp), "jti", Str(i.jti));
  }

  /** The header names the algorithm and the key. */
  lemma SignedHeader(p: Platform, pair: KeyPair, i: Issue)
    requires Faithful(p) && Encodable(pair, i)
    ensures var s := Split(SignedToken(p, pair, i));
            && |s| == 3 && DecodeText(s[0]).Some?
            && p.parse(DecodeText(s[0]).value) == Some(Header("alg", "ES256", "typ", "JWT", "kid", pair.kid))
  {
    SignedParts(p, pair, i);
    SegmentDecodes(HeaderText(pair.kid), HeaderSegment(pair));
    HeaderParses(p, "alg", "ES256", "typ", "JWT", "kid", pair.kid);
  }

  lemma SegmentDecodes(text: string, segment: string)
    requires Latin1(text) && segment == Base64Url.Encode(BytesOf(text))
    ensures DecodeText(segment) == Some(text)
  {
    DecodeEncodedText(text);
  }

  lemma HeaderParses(p: Platform, k1: string, v1: string, k2: string, v2: string, k3: string, v3: string)
    requires Faithful(p) && k1 != k2 && k2 != k3 && k1 != k3
    ensures p.parse(Print(Header(k1, v1, k2, v2, k3, v3))) == Some(Header(k1, v1, k2, v2, k3, v3))
  {
    StringsPrinted(p, Header(k1, v1, k2, v2, k3, v3).members);
  }

  lemma StringsPrinted(p: Platform, ms: seq<Member>)
    requires DistinctKeys(ms) && forall i | 0 <= i < |ms| :: ms[i].value.Str?
    ensures WellFormed(Obj(ms)) && Printed(p, Obj(ms))
  {
    forall m | m in ms ensures WellFormed(m.value) && Printed(p, m.value) {
      var i :| 0 <= i < |ms| && ms[i] == m;
    }
  }

  lemma SignedBody(p: Platform, i: Issue, now: int, revoked: Table)
    requires Faithful(p) && Issuable(p, i) && Latin1(ClaimsText(i))
    ensures AfterSignature(p, BodySegment(i), now, revoked)
            == Admitted(p, Obj(Claims(i.payload, Exp(i), i.jti)), now, revoked)
  {
    ClaimsParse(p, i);
    DecodeEncodedText(ClaimsText(i));
  }

  lemma SignedAdmission(p: Platform, i: Issue, now: int, revoked: Table)
    requires Faithful(p) && Safe(Exp(i))
    ensures Admitted(p, Obj(Claims(i.payload, Exp(i), i.jti)), now, revoked)
         == if Exp(i) != 0 && Exp(i) < now / 1000 then Rejected(TokenExpired)
            else if i.jti != "" && i.jti in revoked then Rejected(TokenRevoked)
            else Accepted(Obj(Claims(i.payload, Exp(i), i.jti)))
  {
    ClaimsOverride(i.payload, Exp(i), i.jti, "exp");
    ClaimsOverride(i.payload, Exp(i), i.jti, "jti");
    assert p.number(Num(Decimal(Exp(i)))) == Some(Exp(i) as real);
    assert p.text(Str(i.jti)) == i.jti;
  }

  /** Verifying a signed token: rejected unless its signing key is an active key, not expired, and not revoked; and then
      the payload comes back with the new `exp` and `jti`. */
  lemma SignThenVerify(p: Platform, pair: KeyPair, i: Issue, keys: seq<KeyPair>, now: int, revoked: Table)
    requires Ideal(p) && Faithful(p) && Issuable(p, i) && Encodable(pair, i)
    ensures Verdict(p, keys, SignedToken(p, pair, i), now, revoked)
         == if !HasKey(keys, pair.key) then Rejected(InvalidSignature)
            else if Exp(i) != 0 && Exp(i) < now / 1000 then Rejected(TokenExpired)
            else if i.jti != "" && i.jti in revoked then Rejected(TokenRevoked)
            else Accepted(Obj(Claims(i.payload, Exp(i), i.jti)))
  {
    SignedParts(p, pair, i);
    VerifiesIff(p, keys, pair.key, SigningInput(pair, i), i.nonce, SigningInput(pair, i));
    SignedBody(p, i, now, revoked);
    SignedAdmission(p, i, now, revoked);
  }

  /** A signature vouches for one token only: whatever carries a signed token's signature segment and gets past the
      signature check is that token. */
  lemma SignatureBindsToken(p: Platform, pair: KeyPair, i: Issue, keys: seq<KeyPair>, token: string, now: int,
                            revoked: Table)
    requires Ideal(p) && Encodable(pair, i)
    requires |Split(token)| == 3 && Split(token)[2] == Base64Url.Encode(Signature(p, pair, i))
    ensures Verdict(p, keys, token, now, revoked) == Rejected(InvalidSignature) || token == SignedToken(p, pair, i)
  {
    var parts := Split(token);
    Base64Url.DecodeEncode(Signature(p, pair, i));
    VerifiesIff(p, keys, pair.key, SigningInput(pair, i), i.nonce, parts[0] + ("." + parts[1]));
    JoinThree(token);
  }

  lemma JoinThree(token: string)
    requires |Split(token)| == 3
    ensures var s := Split(token); token == (s[0] + ("." + s[1])) + ("." + s[2])
  {
    JoinSplit(token);
    var s := Split(token);
    assert s[1..][1..] == [s[2]];
    assert Join(s[1..]) == s[1] + ("." + s[2]);
    Assoc(s[0], "." + s[1], "." + s[2]);
    Assoc(".", s[1], "." + s[2]);
  }
}
