/**
 Signed license tokens, backend/app/core/license_token.py: signing a payload, reading claims
 from a payload, and verifying a token.

 Ed25519 (RFC 8032), JSON and Python's conversions are parameters; `Lawful` states what is assumed
 of them about one payload.
 */
module LicenseToken {
  import opened Options
  import opened Text
  import opened Ordering
  import opened Base64Url

  datatype Json =
    | JNull
    | JBool(b: bool)
    | JInt(n: int)
    | JFloat(r: real)
    | JNan
    | JInfinity(negative: bool)
    | JStr(s: string)
    | JList(items: seq<Json>)
    | JObj(fields: map<string, Json>)

  type Payload = map<string, Json>

  type Bytes = seq<Byte>

  /** The libraries: `None` stands for an exception. `toInt` and `toStr` are `int` and `str` on values
      whose conversion is not plain. */
  datatype Library = Library(
    dumps: Payload -> Bytes,
    loads: Bytes -> Option<Json>,
    sign: Bytes -> Bytes,
    verify: (Bytes, Bytes) -> bool,
    toInt: Json -> Option<int>,
    toStr: Json -> string)

  /** The payload comes back from its JSON text, and what is signed with the key verifies. */
  ghost predicate Lawful(lib: Library, p: Payload) {
    lib.loads(lib.dumps(p)) == Some(JObj(p)) && forall m :: lib.verify(lib.sign(m), m)
  }

  /** For every payload there are libraries as assumed. */
  lemma SomeLibraryIsLawful(p: Payload, toInt: Json -> Option<int>, toStr: Json -> string) returns (lib: Library)
    ensures Lawful(lib, p) && lib.toInt == toInt && lib.toStr == toStr
  {
    lib := Library(_ => [], _ => Some(JObj(p)), m => m, (signature, m) => signature == m, toInt, toStr);
  }

  datatype Key = Ed25519 | OtherKind | Unreadable

  datatype Reason =
    | InvalidFormat | InvalidPrefix | InvalidPayload | InvalidSignatureEncoding | WrongKeyType | InvalidSignature
    | InvalidFeatures | MissingField(name: string) | InvalidField(name: string) | MissingOrg | InvalidTimes
    | NotYetValid | Expired

  datatype LicenseClaims = LicenseClaims(
    orgId: string, features: seq<string>, iat: int, exp: int,
    nbf: Option<int>, licenseId: Option<string>, plan: Option<string>)

  /** `Escaped` is an exception that is not a LicenseTokenError. */
  datatype Outcome = Accepted(claims: LicenseClaims) | Refused(reason: Reason) | Escaped

  // ---------------------------------------------------------------------------
  // Claims from a payload
  // ---------------------------------------------------------------------------

  const ORG_ID: string := "org_id"
  const FEATURES: string := "features"
  const IAT: string := "iat"
  const EXP: string := "exp"
  const NBF: string := "nbf"
  const LICENSE_ID: string := "license_id"
  const PLAN: string := "plan"

  function Field(p: Payload, name: string): Json {
    if name in p then p[name] else JNull
  }

  predicate Falsy(v: Json) {
    match v
    case JNull => true
    case JBool(b) => !b
    case JInt(n) => n == 0
    case JFloat(r) => r == 0.0
    case JNan => false
    case JInfinity(_) => false
    case JStr(s) => s == ""
    case JList(items) => items == []
    case JObj(fields) => fields == map[]
  }

  /** `int(v)`, which raises for what is no finite number. */
  function ToInt(lib: Library, v: Json): Option<int> {
    match v
    case JInt(n) => Some(n)
    case JBool(b) => Some(if b then 1 else 0)
    case JNan => None
    case JInfinity(_) => None
    case _ => lib.toInt(v)
  }

  function ToStr(lib: Library, v: Json): string {
    if v.JStr? then v.s else lib.toStr(v)
  }

  function OptionalStr(lib: Library, v: Json): Option<string> {
    if v.JNull? then None else Some(ToStr(lib, v))
  }

  predicate AllStrings(items: seq<Json>) {
    forall i :: 0 <= i < |items| ==> items[i].JStr?
  }

  function Strings(items: seq<Json>): (r: seq<string>)
    requires AllStrings(items)
    ensures |r| == |items| && forall i :: 0 <= i < |r| ==> r[i] == items[i].s
  {
    seq(|items|, i requires 0 <= i < |items| => items[i].s)
  }

  function FeatureItems(p: Payload): Option<seq<Json>> {
    var raw := Field(p, FEATURES);
    if Falsy(raw) then Some([])
    else if raw.JList? && AllStrings(raw.items) then Some(raw.items)
    else None
  }

  datatype IntField = IntField(value: int) | BadField(reason: Reason)

  /** `_as_int` */
  function RequiredInt(lib: Library, p: Payload, name: string): IntField {
    var v := Field(p, name);
    if v.JNull? then BadField(MissingField(name))
    else
      match ToInt(lib, v)
      case None => BadField(InvalidField(name))
      case Some(n) => IntField(n)
  }

  /** `LicenseClaims.from_mapping` */
  function FromMapping(lib: Library, p: Payload): Outcome {
    var org := if Falsy(Field(p, ORG_ID)) then "" else ToStr(lib, Field(p, ORG_ID));
    var items := FeatureItems(p);
    if items.None? then Refused(InvalidFeatures)
    else
      var iat := RequiredInt(lib, p, IAT);
      if iat.BadField? then Refused(iat.reason)
      else
        var exp := RequiredInt(lib, p, EXP);
        if exp.BadField? then Refused(exp.reason)
        else
          var nbf := Field(p, NBF);
          if !nbf.JNull? && ToInt(lib, nbf).None? then Escaped
          else if org == "" then Refused(MissingOrg)
          else if exp.value <= 0 || iat.value <= 0 then Refused(InvalidTimes)
          else
            Accepted(LicenseClaims(
              org, SortedSet(Strings(items.value)), iat.value, exp.value,
              if nbf.JNull? then None else ToInt(lib, nbf),
              OptionalStr(lib, Field(p, LICENSE_ID)), OptionalStr(lib, Field(p, PLAN))))
  }

  // ---------------------------------------------------------------------------
  // Signing and verifying
  // ---------------------------------------------------------------------------

  function Ascii(s: string): (r: Bytes)
    requires IsAscii(s)
    ensures |r| == |s|
  {
    seq(|s|, i requires 0 <= i < |s| => s[i] as int)
  }

  function SigningInput(prefix: string, payload64: string): Option<Bytes> {
    var s := prefix + "." + payload64;
    if IsAscii(s) then Some(Ascii(s)) else None
  }

  /** `sign_license_token` with a loaded Ed25519 key; `None` if the prefix is not ASCII. */
  function Sign(lib: Library, p: Payload, prefix: string): Option<string> {
    var payload64 := Encode(lib.dumps(p));
    match SigningInput(prefix, payload64)
    case None => None
    case Some(m) => Some(prefix + "." + payload64 + "." + Encode(lib.sign(m)))
  }

  function CheckTimes(c: LicenseClaims, now: int, skew: int): Outcome {
    if c.nbf.Some? && now + skew < c.nbf.value then Refused(NotYetValid)
    else if now - skew > c.exp then Refused(Expired)
    else Accepted(c)
  }

  function ClaimsOf(lib: Library, payload: Json, now: int, skew: int): Outcome {
    if !payload.JObj? then Escaped
    else
      var r := FromMapping(lib, payload.fields);
      if r.Accepted? then CheckTimes(r.claims, now, skew) else r
  }

  /** What is checked before the payload is looked at. */
  datatype Opened = Fail(outcome: Outcome) | Signed(payload: Json)

  function OpenToken(lib: Library, token: string, key: Key, prefix: string): Opened {
    var parts := Split(token, ".");
    if |parts| != 3 then Fail(Refused(InvalidFormat))
    else if parts[0] != prefix then Fail(Refused(InvalidPrefix))
    else
      var raw := Decode(parts[1]);
      if raw.None? || lib.loads(raw.value).None? then Fail(Refused(InvalidPayload))
      else
        var signature := Decode(parts[2]);
        if signature.None? then Fail(Refused(InvalidSignatureEncoding))
        else if key.Unreadable? then Fail(Escaped)
        else if !key.Ed25519? then Fail(Refused(WrongKeyType))
        else
          var m := SigningInput(prefix, parts[1]);
          if m.None? || !lib.verify(signature.value, m.value) then Fail(Refused(InvalidSignature))
          else Signed(lib.loads(raw.value).value)
  }

  /** `verify_license_token` */
  function Verify(lib: Library, token: string, key: Key, now: int, skew: int, prefix: string): Outcome {
    match OpenToken(lib, token, key, prefix)
    case Fail(outcome) => outcome
    case Signed(payload) => ClaimsOf(lib, payload, now, skew)
  }

  // ---------------------------------------------------------------------------
  // Reading back what was signed
  // ---------------------------------------------------------------------------

  lemma ThreeParts(a: string, b: string, c: string)
    requires '.' !in a && '.' !in b && '.' !in c
    ensures Split(a + "." + b + "." + c, ".") == [a, b, c]
  {
    AvoidsFirst(a, '.');
    AvoidsFirst(b, '.');
    AvoidsFirst(c, '.');
    assert a + "." + b + "." + c == a + "." + (b + "." + c);
    SplitAtFirst(a, ".", b + "." + c);
    SplitAtFirst(b, ".", c);
    SplitNoSep(c, ".");
  }

  function Dots(s: string): nat {
    if s == [] then 0 else (if s[0] == '.' then 1 else 0) + Dots(s[1..])
  }

  lemma {:induction false} PartsCountDots(s: string)
    ensures |Split(s, ".")| == 1 + Dots(s)
  {
    if s != [] {
      assert "." <= s <==> s[0] == '.';
      PartsCountDots(s[1..]);
    }
  }

  lemma {:induction false} DotsConcat(a: string, b: string)
    ensures Dots(a + b) == Dots(a) + Dots(b)
  {
    if a == [] {
      assert a + b == b;
    } else {
      assert (a + b)[1..] == a[1..] + b;
      DotsConcat(a[1..], b);
    }
  }

  lemma {:induction false} SomeDot(s: string)
    ensures '.' in s <==> Dots(s) > 0
  {
    if s != [] {
      SomeDot(s[1..]);
      assert s == [s[0]] + s[1..];
    }
  }

  lemma SignedInputIsAscii(prefix: string, data: Bytes)
    ensures SigningInput(prefix, Encode(data)).Some? <==> IsAscii(prefix)
  {
    EncodingIsAField(data);
    var s := prefix + "." + Encode(data);
    assert forall i :: 0 <= i < |prefix| ==> s[i] == prefix[i];
  }

  /** A signed token opens to the payload that was signed. */
  lemma SignedTokenOpens(lib: Library, p: Payload, prefix: string)
    requires Lawful(lib, p) && IsAscii(prefix) && '.' !in prefix
    ensures Sign(lib, p, prefix).Some?
    ensures OpenToken(lib, Sign(lib, p, prefix).value, Ed25519, prefix) == Signed(JObj(p))
  {
    var payload64 := Encode(lib.dumps(p));
    SignedInputIsAscii(prefix, lib.dumps(p));
    var m := SigningInput(prefix, payload64).value;
    EncodingIsAField(lib.dumps(p));
    EncodingIsAField(lib.sign(m));
    hide Decode, Encode, Split;
    ThreeParts(prefix, payload64, Encode(lib.sign(m)));
    DecodeEncode(lib.dumps(p));
    DecodeEncode(lib.sign(m));
  }

  /** Verifying a signed token yields the claims of the payload exactly when the times allow it. */
  lemma SignedTokenVerifies(lib: Library, p: Payload, prefix: string, now: int, skew: int)
    requires Lawful(lib, p) && IsAscii(prefix) && '.' !in prefix
    ensures Sign(lib, p, prefix).Some?
    ensures var r := FromMapping(lib, p);
            var v := Verify(lib, Sign(lib, p, prefix).value, Ed25519, now, skew, prefix);
            && (!r.Accepted? ==> v == r)
            && (r.Accepted? ==>
                  && (v == Accepted(r.claims) <==>
                        (r.claims.nbf.None? || r.claims.nbf.value <= now + skew) && now - skew <= r.claims.exp)
                  && (v != Accepted(r.claims) ==> v == Refused(NotYetValid) || v == Refused(Expired)))
  {
    SignedTokenOpens(lib, p, prefix);
  }

  /** A prefix with a dot makes every signed token unreadable, so a dot-free prefix is exactly what is needed. */
  lemma PrefixMustBeDotFree(lib: Library, p: Payload, prefix: string)
    requires Lawful(lib, p) && IsAscii(prefix)
    ensures Sign(lib, p, prefix).Some?
    ensures OpenToken(lib, Sign(lib, p, prefix).value, Ed25519, prefix) == Signed(JObj(p)) <==> '.' !in prefix
    ensures '.' in prefix ==>
              OpenToken(lib, Sign(lib, p, prefix).value, Ed25519, prefix) == Fail(Refused(InvalidFormat))
  {
    var payload64 := Encode(lib.dumps(p));
    SignedInputIsAscii(prefix, lib.dumps(p));
    var sig64 := Encode(lib.sign(SigningInput(prefix, payload64).value));
    if '.' !in prefix {
      SignedTokenOpens(lib, p, prefix);
    } else {
      TooManyDots(prefix, payload64, sig64);
    }
  }

  lemma TooManyDots(a: string, b: string, c: string)
    requires '.' in a
    ensures |Split(a + "." + b + "." + c, ".")| > 3
  {
    SomeDot(a);
    PartsCountDots(a + "." + b + "." + c);
    DotsConcat(a + "." + b + ".", c);
    DotsConcat(a + "." + b, ".");
    DotsConcat(a + ".", b);
    DotsConcat(a, ".");
    assert Dots(".") == 1;
  }

  // ---------------------------------------------------------------------------
  // What an accepted token guarantees
  // ---------------------------------------------------------------------------

  lemma JoinThree(s: string, a: string, b: string, c: string)
    requires Split(s, ".") == [a, b, c]
    ensures s == a + "." + b + "." + c
  {
    JoinSplit(s, ".");
    var parts := [a, b, c];
    assert parts[1..] == [b, c] && [b, c][1..] == [c];
    assert Join(".", [c]) == c && Join(".", [b, c]) == b + "." + c;
    assert Join(".", parts) == a + "." + (b + "." + c);
  }

  /** An accepted token has the three fields; its signature covers the literal prefix and payload
      field; the claims are those of the payload, and the clock is within their window. */
  lemma AcceptedTokenIsSigned(lib: Library, token: string, key: Key, now: int, skew: int, prefix: string)
    requires Verify(lib, token, key, now, skew, prefix).Accepted?
    ensures var c := Verify(lib, token, key, now, skew, prefix).claims;
            && (c.nbf.None? || c.nbf.value <= now + skew) && now - skew <= c.exp
            && c.orgId != "" && c.iat > 0 && c.exp > 0 && Increasing(c.features)
            && exists payload64, sig64, p ::
                 && token == prefix + "." + payload64 + "." + sig64
                 && Decode(payload64).Some? && lib.loads(Decode(payload64).value) == Some(JObj(p))
                 && Decode(sig64).Some? && IsAscii(prefix + "." + payload64)
                 && lib.verify(Decode(sig64).value, Ascii(prefix + "." + payload64))
                 && FromMapping(lib, p) == Accepted(c)
  {
    var parts := Split(token, ".");
    assert parts == [parts[0], parts[1], parts[2]];
    JoinThree(token, parts[0], parts[1], parts[2]);
    var p := lib.loads(Decode(parts[1]).value).value.fields;
    SortedSetIs(Strings(FeatureItems(p).value));
  }

  /** The features of the claims are the distinct features of the payload in increasing order, so
      neither order nor repetition in the payload matters. */
  lemma FeaturesAreCanonical(lib: Library, p: Payload, q: Payload)
    requires FromMapping(lib, p).Accepted? && FromMapping(lib, q).Accepted?
    requires forall x :: JStr(x) in FeatureItems(p).value <==> JStr(x) in FeatureItems(q).value
    ensures FromMapping(lib, p).claims.features == FromMapping(lib, q).claims.features
  {
    var a, b := Strings(FeatureItems(p).value), Strings(FeatureItems(q).value);
    SortedSetIs(a);
    SortedSetIs(b);
    forall x ensures x in a <==> x in b {
      StringIn(FeatureItems(p).value, x);
      StringIn(FeatureItems(q).value, x);
    }
    IncreasingUnique(SortedSet(a), SortedSet(b));
  }

  lemma StringIn(items: seq<Json>, x: string)
    requires AllStrings(items)
    ensures x in Strings(items) <==> JStr(x) in items
  {
    if x in Strings(items) {
      var i :| 0 <= i < |items| && Strings(items)[i] == x;
      assert items[i] == JStr(x);
    }
    if JStr(x) in items {
      var i :| 0 <= i < |items| && items[i] == JStr(x);
      assert Strings(items)[i] == x;
    }
  }

  // ---------------------------------------------------------------------------
  // Claims there and back
  // ---------------------------------------------------------------------------

  function Texts(items: seq<string>): (r: seq<Json>)
    ensures |r| == |items| && forall i :: 0 <= i < |r| ==> r[i] == JStr(items[i])
  {
    seq(|items|, i requires 0 <= i < |items| => JStr(items[i]))
  }

  function Given(name: string, v: Option<Json>): Payload {
    if v.Some? then map[name := v.value] else map[]
  }

  function JsonInt(n: Option<int>): Option<Json> {
    if n.Some? then Some(JInt(n.value)) else None
  }

  function JsonStr(s: Option<string>): Option<Json> {
    if s.Some? then Some(JStr(s.value)) else None
  }

  function Required(c: LicenseClaims): Payload {
    map[ORG_ID := JStr(c.orgId), FEATURES := JList(Texts(c.features)), IAT := JInt(c.iat), EXP := JInt(c.exp)]
  }

  /** The payload, in the documented format, that carries the claims. */
  function ToPayload(c: LicenseClaims): Payload {
    Required(c) + Given(NBF, JsonInt(c.nbf)) + Given(LICENSE_ID, JsonStr(c.licenseId)) + Given(PLAN, JsonStr(c.plan))
  }

  ghost predicate Canonical(c: LicenseClaims) {
    c.orgId != "" && c.iat > 0 && c.exp > 0 && Increasing(c.features)
  }

  ghost predicate Carries(p: Payload, c: LicenseClaims) {
    && Field(p, ORG_ID) == JStr(c.orgId) && Field(p, FEATURES) == JList(Texts(c.features))
    && Field(p, IAT) == JInt(c.iat) && Field(p, EXP) == JInt(c.exp)
    && Field(p, NBF) == (if c.nbf.Some? then JInt(c.nbf.value) else JNull)
    && Field(p, LICENSE_ID) == (if c.licenseId.Some? then JStr(c.licenseId.value) else JNull)
    && Field(p, PLAN) == (if c.plan.Some? then JStr(c.plan.value) else JNull)
  }

  lemma PayloadCarriesClaims(c: LicenseClaims)
    ensures Carries(ToPayload(c), c)
  {
    NamesDiffer();
    hide ORG_ID, FEATURES, IAT, EXP, NBF, LICENSE_ID, PLAN, Texts, Given, Field;
    var p := Required(c);
    var q := p + Given(NBF, JsonInt(c.nbf));
    var r := q + Given(LICENSE_ID, JsonStr(c.licenseId));
    RequiredFields(c);
    forall name
      ensures Field(ToPayload(c), name) ==
              var nbf := FieldOr(NBF, JsonInt(c.nbf), Field(p, name), name);
              FieldOr(PLAN, JsonStr(c.plan), FieldOr(LICENSE_ID, JsonStr(c.licenseId), nbf, name), name)
    {
      GivenField(p, NBF, JsonInt(c.nbf), name);
      GivenField(q, LICENSE_ID, JsonStr(c.licenseId), name);
      GivenField(r, PLAN, JsonStr(c.plan), name);
    }
  }

  /** A field that may have been added to a payload. */
  function FieldOr(added: string, v: Option<Json>, before: Json, name: string): Json {
    if name == added && v.Some? then v.value else before
  }

  lemma GivenField(p: Payload, added: string, v: Option<Json>, name: string)
    ensures Field(p + Given(added, v), name) == FieldOr(added, v, Field(p, name), name)
  {
  }

  lemma RequiredFields(c: LicenseClaims)
    ensures var p := Required(c);
            && Field(p, ORG_ID) == JStr(c.orgId) && Field(p, FEATURES) == JList(Texts(c.features))
            && Field(p, IAT) == JInt(c.iat) && Field(p, EXP) == JInt(c.exp)
            && Field(p, NBF) == JNull && Field(p, LICENSE_ID) == JNull && Field(p, PLAN) == JNull
  {
    NamesDiffer();
    hide ORG_ID, FEATURES, IAT, EXP, NBF, LICENSE_ID, PLAN, Texts;
  }

  lemma NamesDiffer()
    ensures ORG_ID !in {FEATURES, IAT, EXP, NBF, LICENSE_ID, PLAN} && FEATURES !in {IAT, EXP, NBF, LICENSE_ID, PLAN}
    ensures IAT !in {EXP, NBF, LICENSE_ID, PLAN} && EXP !in {NBF, LICENSE_ID, PLAN}
    ensures NBF !in {LICENSE_ID, PLAN} && LICENSE_ID != PLAN
  {
    assert IAT[0] != EXP[0] && IAT[0] != NBF[0] && EXP[0] != NBF[0];
  }

  /** What is read from a payload that carries `c`. */
  lemma ReadClaims(lib: Library, p: Payload, c: LicenseClaims)
    requires Carries(p, c)
    ensures FromMapping(lib, p) ==
              if c.orgId == "" then Refused(MissingOrg)
              else if c.exp <= 0 || c.iat <= 0 then Refused(InvalidTimes)
              else Accepted(c.(features := SortedSet(c.features)))
  {
    var items := Texts(c.features);
    assert AllStrings(items) && Strings(items) == c.features;
    assert items == [] ==> c.features == [];
    hide Field, SortedSet, Texts;
  }

  /** A payload carries its claims exactly when they are canonical: each field comes back as itself. */
  lemma ClaimsComeBack(lib: Library, c: LicenseClaims)
    ensures FromMapping(lib, ToPayload(c)) == Accepted(c) <==> Canonical(c)
  {
    hide ToPayload, Field, SortedSet, Increasing, FromMapping, Carries;
    PayloadCarriesClaims(c);
    ReadClaims(lib, ToPayload(c), c);
    SortedSetIs(c.features);
    if Increasing(c.features) {
      IncreasingUnique(SortedSet(c.features), c.features);
    }
  }

  /** Claims that are signed and then verified arrive unchanged exactly when they are canonical and the clock
      is within their window. */
  lemma ClaimsTravel(lib: Library, c: LicenseClaims, prefix: string, now: int, skew: int)
    requires Lawful(lib, ToPayload(c)) && IsAscii(prefix) && '.' !in prefix
    ensures Sign(lib, ToPayload(c), prefix).Some?
    ensures Verify(lib, Sign(lib, ToPayload(c), prefix).value, Ed25519, now, skew, prefix) == Accepted(c) <==>
              Canonical(c) && (c.nbf.None? || c.nbf.value <= now + skew) && now - skew <= c.exp
  {
    SignedTokenOpens(lib, ToPayload(c), prefix);
    ClaimsComeBack(lib, c);
    hide FromMapping, ToPayload, Sign, OpenToken, Canonical;
  }

  // ---------------------------------------------------------------------------
  // Which failures are reported as license errors
  // ---------------------------------------------------------------------------

  predicate IsNumber(lib: Library, v: Json) {
    !v.JNull? && ToInt(lib, v).Some?
  }

  /** A payload that is not an object, or whose `nbf` is given but not a number although every field
      read before it is fine. */
  predicate Awkward(lib: Library, payload: Json) {
    payload.JObj? ==>
      && FeatureItems(payload.fields).Some?
      && IsNumber(lib, Field(payload.fields, IAT)) && IsNumber(lib, Field(payload.fields, EXP))
      && !Field(payload.fields, NBF).JNull? && !IsNumber(lib, Field(payload.fields, NBF))
  }

  /** The two encoded fields decode, and the first one to JSON: this much is read before the key. */
  predicate ReadsUpToTheKey(lib: Library, token: string, prefix: string) {
    var parts := Split(token, ".");
    && |parts| == 3 && parts[0] == prefix
    && Decode(parts[1]).Some? && lib.loads(Decode(parts[1]).value).Some? && Decode(parts[2]).Some?
  }

  /** The verifier is documented to raise LicenseTokenError on any validation failure. Another exception
      escapes exactly when the key cannot be read and the token reads up to where it is needed, or when the
      token opens to an awkward payload. */
  lemma EscapesExactlyWhen(lib: Library, token: string, key: Key, now: int, skew: int, prefix: string)
    ensures Verify(lib, token, key, now, skew, prefix).Escaped? <==>
              var o := OpenToken(lib, token, key, prefix);
              (key.Unreadable? && ReadsUpToTheKey(lib, token, prefix)) || (o.Signed? && Awkward(lib, o.payload))
  {
  }

  /** A signed token whose `nbf` is an infinity, or is no number otherwise, makes another exception escape,
      whatever the clock. */
  lemma BadNbfEscapes(lib: Library, p: Payload, nbf: Json, prefix: string, now: int, skew: int)
    requires Lawful(lib, p) && IsAscii(prefix) && '.' !in prefix
    requires p == map[ORG_ID := JStr("o"), IAT := JInt(1), EXP := JInt(2), NBF := nbf]
    requires nbf.JInfinity? || (!nbf.JNull? && !IsNumber(lib, nbf))
    ensures Sign(lib, p, prefix).Some?
    ensures Verify(lib, Sign(lib, p, prefix).value, Ed25519, now, skew, prefix).Escaped?
  {
    SignedTokenOpens(lib, p, prefix);
    NamesDiffer();
    hide OpenToken, Sign, ORG_ID, FEATURES, IAT, EXP, NBF;
    assert Field(p, FEATURES) == JNull;
    assert Field(p, NBF) == nbf;
  }
}
