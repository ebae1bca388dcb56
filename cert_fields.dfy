/**
 * One decoded X.509 certificate and the property map built from it
 * (LLBasicCertificate::_initLLSD and its extension helpers).  The decoding
 * itself is the crypto library's job: X509Data holds what the library
 * hands back, and the functions here turn it into the LLSD property map.
 */
module CertFields {
  import opened LLSD

  datatype Option<T> = None | Some(value: T)

  type byte = b: int | 0 <= b < 256

  // Property-map keys (the CERT_* names of the security API header).
  const SUBJECT_NAME := "subject_name"
  const ISSUER_NAME := "issuer_name"
  const NAME_CN := "commonName"
  const SUBJECT_NAME_STRING := "subject_name_string"
  const ISSUER_NAME_STRING := "issuer_name_string"
  const SERIAL_NUMBER := "serial_number"
  const VALID_FROM := "valid_from"
  const VALID_TO := "valid_to"
  const BASIC_CONSTRAINTS := "basicConstraints"
  const BASIC_CONSTRAINTS_CA := "CA"
  const BASIC_CONSTRAINTS_PATHLEN := "pathLen"
  const KEY_USAGE := "keyUsage"
  const EXTENDED_KEY_USAGE := "extendedKeyUsage"
  const SUBJECT_KEY_IDENTIFIER := "subjectKeyIdentifier"
  const AUTHORITY_KEY_IDENTIFIER := "authorityKeyIdentifier"
  const AUTHORITY_KEY_IDENTIFIER_ID := "authorityKeyIdentifierId"
  const AUTHORITY_KEY_IDENTIFIER_SERIAL := "authorityKeyIdentifierSerial"
  const HOSTNAME := "hostname"
  const VALIDATION_DATE := "validation_date"

  // Key-usage names and the extended-key-usage name the validator asks for.
  const KU_DIGITAL_SIGNATURE := "digitalSignature"
  const KU_NON_REPUDIATION := "nonRepudiation"
  const KU_KEY_ENCIPHERMENT := "keyEncipherment"
  const KU_DATA_ENCIPHERMENT := "dataEncipherment"
  const KU_KEY_AGREEMENT := "keyAgreement"
  const KU_CERT_SIGN := "certSigning"
  const KU_CRL_SIGN := "crlSigning"
  const KU_ENCIPHER_ONLY := "encipherOnly"
  const KU_DECIPHER_ONLY := "decipherOnly"
  const EKU_SERVER_AUTH := "serverAuth"

  /** The basicConstraints extension as decoded: the cA flag and the optional pathLenConstraint. */
  datatype BasicConstraints = BasicConstraints(ca: bool, pathLen: Option<int>)

  /** The authorityKeyIdentifier extension as decoded (the issuer-name part is ignored by the source). */
  datatype AuthorityKeyId = AuthorityKeyId(keyId: Option<seq<byte>>, serial: Option<string>)

  /**
   * What the crypto library yields for one certificate.  Names arrive as
   * their attribute map and their one-line RFC 2253 rendering; the serial
   * number already rendered as hex; dates already converted to seconds.
   * An extended-key-usage object is `None` when the library knows no NID for it.
   */
  datatype X509Data = X509Data(
    subject: map<string, string>,
    issuer: map<string, string>,
    subjectString: string,
    issuerString: string,
    serial: Option<string>,
    validFrom: int,
    validTo: int,
    basicConstraints: Option<BasicConstraints>,
    keyUsage: Option<seq<byte>>,
    extKeyUsage: Option<seq<Option<string>>>,
    subjectKeyId: Option<seq<byte>>,
    authorityKeyId: Option<AuthorityKeyId>)

  // ---------------------------------------------------------------------
  // cert_string_from_octet_string: colon-separated two-digit lower-case hex

  function HexDigit(d: nat): (c: char)
    requires d < 16
  {
    "0123456789abcdef"[d]
  }

  function HexValue(c: char): Option<nat>
  {
    if '0' <= c <= '9' then Some(c as nat - '0' as nat)
    else if 'a' <= c <= 'f' then Some(c as nat - 'a' as nat + 10)
    else None
  }

  lemma HexValueOfDigit(d: nat)
    requires d < 16
    ensures HexValue(HexDigit(d)) == Some(d)
  {
    var digits := "0123456789abcdef";
    if d < 10 {
      assert digits[d] == '0' + (d as char);
    } else {
      assert digits[d] == 'a' + ((d - 10) as char);
    }
  }

  function HexByte(b: byte): (r: string)
    ensures |r| == 2
  {
    [HexDigit(b / 16), HexDigit(b % 16)]
  }

  /** The rendering, built from the end so that it grows the way the source's loop does. */
  function OctetHex(s: seq<byte>): (r: string)
    ensures |r| == if s == [] then 0 else 3 * |s| - 1
  {
    if |s| == 0 then ""
    else if |s| == 1 then HexByte(s[0])
    else OctetHex(s[..|s| - 1]) + ":" + HexByte(s[|s| - 1])
  }

  function ParseHexByte(t: string): Option<byte>
    requires |t| == 2
  {
    var hi, lo := HexValue(t[0]), HexValue(t[1]);
    if hi.Some? && lo.Some? && hi.value < 16 && lo.value < 16 then Some(hi.value * 16 + lo.value) else None
  }

  /** Reads the rendering back; the partner of OctetHex. */
  function ParseOctetHex(t: string): Option<seq<byte>>
  {
    if |t| == 0 then Some([])
    else if |t| == 2 then
      var b := ParseHexByte(t);
      if b.Some? then Some([b.value]) else None
    else if |t| >= 5 && t[|t| - 3] == ':' then
      var bs, b := ParseOctetHex(t[..|t| - 3]), ParseHexByte(t[|t| - 2..]);
      if bs.Some? && b.Some? then Some(bs.value + [b.value]) else None
    else None
  }

  lemma ParseHexByteInverse(b: byte)
    ensures ParseHexByte(HexByte(b)) == Some(b)
  {
    HexValueOfDigit(b / 16);
    HexValueOfDigit(b % 16);
  }

  lemma ParseOctetHexSnoc(head: string, bs: seq<byte>, b: byte)
    requires |head| >= 2 && ParseOctetHex(head) == Some(bs)
    ensures ParseOctetHex(head + ":" + HexByte(b)) == Some(bs + [b])
  {
    var t := head + ":" + HexByte(b);
    assert |t| == |head| + 3 && t[|t| - 3] == ':';
    assert t[..|t| - 3] == head;
    assert t[|t| - 2..] == HexByte(b);
    ParseHexByteInverse(b);
  }

  /** The subject-key-id rendering loses nothing: it reads back to the same bytes. */
  lemma {:induction false} OctetHexRoundTrip(s: seq<byte>)
    ensures ParseOctetHex(OctetHex(s)) == Some(s)
  {
    if |s| == 1 {
      ParseHexByteInverse(s[0]);
      assert [s[0]] == s;
    } else if |s| > 1 {
      var init := s[..|s| - 1];
      OctetHexRoundTrip(init);
      ParseOctetHexSnoc(OctetHex(init), init, s[|s| - 1]);
      assert init + [s[|s| - 1]] == s;
    }
  }

  lemma OctetHexInjective(s: seq<byte>, t: seq<byte>)
    requires OctetHex(s) == OctetHex(t)
    ensures s == t
  {
    OctetHexRoundTrip(s);
    OctetHexRoundTrip(t);
  }

  /** cert_string_from_octet_string, with the source's loop. */
  method CertStringFromOctetString(value: seq<byte>) returns (result: string)
    ensures result == OctetHex(value)
    ensures ParseOctetHex(result) == Some(value)
  {
    result := "";
    var i := 0;
    while i < |value|
      invariant 0 <= i <= |value|
      invariant result == OctetHex(value[..i])
    {
      if i != 0 {
        result := result + ":";
      }
      result := result + HexByte(value[i]);
      assert value[..i + 1][..i] == value[..i];
      i := i + 1;
    }
    assert value[..|value|] == value;
    OctetHexRoundTrip(value);
  }

  // ---------------------------------------------------------------------
  // _basic_constraints_ext

  /** The largest value of a 64-bit long. */
  const LONG_MAX: int := 0x7FFF_FFFF_FFFF_FFFF

  /**
   * ASN1_INTEGER_get on a non-negative integer: the value when it fits in
   * a 64-bit long, and -1 (OpenSSL's error value) when it does not.
   */
  function Asn1IntegerGet(p: nat): (r: int)
    ensures p <= LONG_MAX ==> r == p
    ensures p > LONG_MAX ==> r == -1
  {
    if p <= LONG_MAX then p else -1
  }

  /** static_cast<int> of a long: two's-complement truncation to 32 bits. */
  function ToInt32(x: int): (r: int)
    ensures -0x8000_0000 <= r < 0x8000_0000
    ensures -0x8000_0000 <= x < 0x8000_0000 ==> r == x
  {
    var m := x % 0x1_0000_0000;
    if m >= 0x8000_0000 then m - 0x1_0000_0000 else m
  }

  function BasicConstraintsExt(bc: Option<BasicConstraints>): (r: V)
    ensures bc.None? <==> r == Undef
    ensures bc.Some? ==>
      && r.Map?
      && Get(r, BASIC_CONSTRAINTS_CA) == Bool(bc.value.ca)
      && (Has(r, BASIC_CONSTRAINTS_PATHLEN) <==> bc.value.pathLen.Some?)
    ensures bc.Some? && bc.value.pathLen.Some? ==>
      var p := bc.value.pathLen.value;
      && Get(r, BASIC_CONSTRAINTS_PATHLEN).Int?
      && (p < 0 || !bc.value.ca ==> Get(r, BASIC_CONSTRAINTS_PATHLEN) == Int(0))
      && (0 <= p < 0x8000_0000 && bc.value.ca ==> Get(r, BASIC_CONSTRAINTS_PATHLEN) == Int(p))
      && (0x8000_0000 <= p <= LONG_MAX && bc.value.ca ==> Get(r, BASIC_CONSTRAINTS_PATHLEN) == Int(ToInt32(p)))
      && (p > LONG_MAX && bc.value.ca ==> Get(r, BASIC_CONSTRAINTS_PATHLEN) == Int(-1))
  {
    match bc
    case None => Undef
    case Some(BasicConstraints(ca, pathLen)) =>
      var base := map[BASIC_CONSTRAINTS_CA := Bool(ca)];
      match pathLen
      case None => Map(base)
      case Some(p) =>
        Map(base[BASIC_CONSTRAINTS_PATHLEN := Int(if p < 0 || !ca then 0 else ToInt32(Asn1IntegerGet(p)))])
  }

  // ---------------------------------------------------------------------
  // _key_usage_ext

  /** The key-usage bits (OpenSSL's KU_* masks) in the order the source tests them. */
  const KeyUsageTable: seq<(bv16, string)> := [
    (0x0080, KU_DIGITAL_SIGNATURE),
    (0x0040, KU_NON_REPUDIATION),
    (0x0020, KU_KEY_ENCIPHERMENT),
    (0x0010, KU_DATA_ENCIPHERMENT),
    (0x0008, KU_KEY_AGREEMENT),
    (0x0004, KU_CERT_SIGN),
    (0x0002, KU_CRL_SIGN),
    (0x0001, KU_ENCIPHER_ONLY),
    (0x8000, KU_DECIPHER_ONLY)]

  /** The usage word: first data byte in the low byte, second in the high byte. */
  function UsageWord(data: seq<byte>): bv16
  {
    if |data| == 0 then 0
    else if |data| == 1 then data[0] as bv16
    else (data[0] as bv16) | ((data[1] as bv16) << 8)
  }

  /** Position of a key-usage name in KeyUsageTable (9 for anything else). */
  function KeyUsageRank(x: V): nat
  {
    if x == Str(KU_DIGITAL_SIGNATURE) then 0
    else if x == Str(KU_NON_REPUDIATION) then 1
    else if x == Str(KU_KEY_ENCIPHERMENT) then 2
    else if x == Str(KU_DATA_ENCIPHERMENT) then 3
    else if x == Str(KU_KEY_AGREEMENT) then 4
    else if x == Str(KU_CERT_SIGN) then 5
    else if x == Str(KU_CRL_SIGN) then 6
    else if x == Str(KU_ENCIPHER_ONLY) then 7
    else if x == Str(KU_DECIPHER_ONLY) then 8
    else 9
  }

  lemma KeyUsageRankOfEntry(i: nat)
    requires i < |KeyUsageTable|
    ensures KeyUsageRank(Str(KeyUsageTable[i].1)) == i
  {
  }

  predicate UsageSet(u: bv16, i: nat)
    requires i < |KeyUsageTable|
  {
    u & KeyUsageTable[i].0 != 0
  }

  /** The names of the set bits among entries from..8, in table order. */
  function UsageNamesFrom(u: bv16, from: nat): (r: seq<V>)
    requires from <= |KeyUsageTable|
    ensures forall x | x in r ::
      (from <= KeyUsageRank(x) < |KeyUsageTable| &&
       x == Str(KeyUsageTable[KeyUsageRank(x)].1) && UsageSet(u, KeyUsageRank(x)))
    ensures forall i | from <= i < |KeyUsageTable| && UsageSet(u, i) :: Str(KeyUsageTable[i].1) in r
    ensures forall j, k | 0 <= j < k < |r| :: KeyUsageRank(r[j]) < KeyUsageRank(r[k])
    decreases |KeyUsageTable| - from
  {
    if from == |KeyUsageTable| then []
    else
      KeyUsageRankOfEntry(from);
      var rest := UsageNamesFrom(u, from + 1);
      if UsageSet(u, from) then [Str(KeyUsageTable[from].1)] + rest else rest
  }

  /**
   * _key_usage_ext: undefined without the extension; otherwise an array
   * holding exactly the names of the set bits, in the fixed table order.
   */
  function KeyUsageExt(ku: Option<seq<byte>>): (r: V)
    ensures ku.None? <==> r == Undef
    ensures ku.Some? ==> r.Arr?
    ensures ku.Some? ==> forall i | 0 <= i < |KeyUsageTable| ::
      Str(KeyUsageTable[i].1) in r.a <==> UsageSet(UsageWord(ku.value), i)
    ensures ku.Some? ==> forall x | x in r.a :: KeyUsageRank(x) < |KeyUsageTable|
    ensures ku.Some? ==> forall j, k | 0 <= j < k < |r.a| :: KeyUsageRank(r.a[j]) < KeyUsageRank(r.a[k])
    ensures ku.Some? && UsageWord(ku.value) == 0 ==> r == Arr([])
  {
    match ku
    case None => Undef
    case Some(data) =>
      var names := UsageNamesFrom(UsageWord(data), 0);
      assert forall i | 0 <= i < |KeyUsageTable| :: Str(KeyUsageTable[i].1) in names ==> UsageSet(UsageWord(data), i) by {
        forall i | 0 <= i < |KeyUsageTable| && Str(KeyUsageTable[i].1) in names
          ensures UsageSet(UsageWord(data), i)
        {
          KeyUsageRankOfEntry(i);
        }
      }
      Arr(names)
  }

  // ---------------------------------------------------------------------
  // _ext_key_usage_ext

  function KnownNames(objs: seq<Option<string>>): (r: seq<string>)
    ensures forall n :: n in r <==> Some(n) in objs
  {
    if objs == [] then []
    else (if objs[0].Some? then [objs[0].value] else []) + KnownNames(objs[1..])
  }

  function Reverse<T>(s: seq<T>): (r: seq<T>)
    ensures |r| == |s| && forall i | 0 <= i < |s| :: r[i] == s[|s| - 1 - i]
  {
    if s == [] then [] else Reverse(s[1..]) + [s[0]]
  }

  /** The usages come off the stack from its top, so they appear in reverse; unknown objects are skipped. */
  function ExtKeyUsageNames(objs: seq<Option<string>>): (r: seq<string>)
    ensures forall n :: n in r <==> Some(n) in objs
  {
    var r := Reverse(KnownNames(objs));
    assert forall n :: n in r <==> n in KnownNames(objs) by {
      var k := KnownNames(objs);
      forall n | n in k ensures n in r {
        var i :| 0 <= i < |k| && k[i] == n;
        assert r[|k| - 1 - i] == n;
      }
    }
    r
  }

  /** _ext_key_usage_ext, with the source's pop loop. */
  method ExtKeyUsageExt(eku: Option<seq<Option<string>>>) returns (result: V)
    ensures eku.None? ==> result == Undef
    ensures eku.Some? ==> result == Arr(StrArray(ExtKeyUsageNames(eku.value)))
  {
    if eku.None? {
      return Undef;
    }
    var stack := eku.value;
    var names: seq<string> := [];
    while |stack| > 0
      invariant Reverse(KnownNames(eku.value)) == names + Reverse(KnownNames(stack))
    {
      var usage := stack[|stack| - 1];
      KnownNamesSnoc(stack[..|stack| - 1], usage);
      assert stack[..|stack| - 1] + [usage] == stack;
      stack := stack[..|stack| - 1];
      if usage.Some? {
        names := names + [usage.value];
      }
    }
    result := Arr(StrArray(names));
  }

  lemma {:induction false} KnownNamesSnoc(s: seq<Option<string>>, x: Option<string>)
    ensures Reverse(KnownNames(s + [x])) == (if x.Some? then [x.value] else []) + Reverse(KnownNames(s))
  {
    KnownNamesAppend(s, [x]);
    assert KnownNames([x]) == (if x.Some? then [x.value] else []) by {
      assert [x][1..] == [];
    }
    ReverseAppend(KnownNames(s), KnownNames([x]));
  }

  lemma {:induction false} KnownNamesAppend(a: seq<Option<string>>, b: seq<Option<string>>)
    ensures KnownNames(a + b) == KnownNames(a) + KnownNames(b)
  {
    if a != [] {
      assert (a + b)[1..] == a[1..] + b;
      KnownNamesAppend(a[1..], b);
    } else {
      assert a + b == b;
    }
  }

  lemma ReverseAppend<T>(a: seq<T>, b: seq<T>)
    ensures Reverse(a + b) == Reverse(b) + Reverse(a)
  {
  }

  function StrArray(names: seq<string>): (r: seq<V>)
    ensures |r| == |names| && forall i | 0 <= i < |names| :: r[i] == Str(names[i])
  {
    seq(|names|, i requires 0 <= i < |names| => Str(names[i]))
  }

  // ---------------------------------------------------------------------
  // the remaining helpers and _initLLSD

  /** cert_name_from_X509_NAME: one string entry per name attribute. */
  function NameMap(name: map<string, string>): (r: V)
    ensures r.Map? && r.m.Keys == name.Keys
    ensures forall k | k in name :: r.m[k] == Str(name[k])
  {
    Map(map k | k in name :: Str(name[k]))
  }

  /** _subject_key_identifier: the rendered identifier, or "" without the extension. */
  function SubjectKeyIdentifier(d: X509Data): (r: string)
    ensures d.subjectKeyId.None? ==> r == ""
    ensures d.subjectKeyId.Some? ==> ParseOctetHex(r) == Some(d.subjectKeyId.value)
  {
    match d.subjectKeyId
    case None => ""
    case Some(bytes) => OctetHexRoundTrip(bytes); OctetHex(bytes)
  }

  function AuthorityKeyIdExt(aki: Option<AuthorityKeyId>): (r: V)
    ensures aki.None? <==> r == Undef
    ensures aki.Some? ==>
      && r.Map?
      && (Has(r, AUTHORITY_KEY_IDENTIFIER_ID) <==> aki.value.keyId.Some?)
      && (Has(r, AUTHORITY_KEY_IDENTIFIER_SERIAL) <==> aki.value.serial.Some?)
      && (aki.value.keyId.Some? ==> Get(r, AUTHORITY_KEY_IDENTIFIER_ID) == Str(OctetHex(aki.value.keyId.value)))
      && (aki.value.serial.Some? ==> Get(r, AUTHORITY_KEY_IDENTIFIER_SERIAL) == Str(aki.value.serial.value))
  {
    match aki
    case None => Undef
    case Some(AuthorityKeyId(keyId, serial)) =>
      var m0: map<string, V> := map[];
      var m1 := if keyId.Some? then m0[AUTHORITY_KEY_IDENTIFIER_ID := Str(OctetHex(keyId.value))] else m0;
      var m2 := if serial.Some? then m1[AUTHORITY_KEY_IDENTIFIER_SERIAL := Str(serial.value)] else m1;
      Map(m2)
  }

  /** The entries _initLLSD writes first: the two names in both forms and, when present, the serial number. */
  function NameEntries(d: X509Data): map<string, V>
  {
    var m := map[
      SUBJECT_NAME := NameMap(d.subject),
      ISSUER_NAME := NameMap(d.issuer),
      SUBJECT_NAME_STRING := Str(d.subjectString),
      ISSUER_NAME_STRING := Str(d.issuerString)];
    if d.serial.Some? then m[SERIAL_NUMBER := Str(d.serial.value)] else m
  }

  /** The entries written after them: the validity period, the extensions and the subject key id. */
  function WithExtensions(m: map<string, V>, d: X509Data): map<string, V>
  {
    var eku := match d.extKeyUsage
      case None => Undef
      case Some(objs) => Arr(StrArray(ExtKeyUsageNames(objs)));
    m[VALID_TO := Date(d.validTo)]
     [VALID_FROM := Date(d.validFrom)]
     [BASIC_CONSTRAINTS := BasicConstraintsExt(d.basicConstraints)]
     [KEY_USAGE := KeyUsageExt(d.keyUsage)]
     [EXTENDED_KEY_USAGE := eku]
     [SUBJECT_KEY_IDENTIFIER := Str(SubjectKeyIdentifier(d))]
     [AUTHORITY_KEY_IDENTIFIER := AuthorityKeyIdExt(d.authorityKeyId)]
  }

  /** _initLLSD: the property map of one certificate; what each key holds is stated by the lemmas below. */
  function InitLLSD(d: X509Data): (r: V)
    ensures r.Map?
    ensures Has(r, SUBJECT_KEY_IDENTIFIER) && Get(r, SUBJECT_KEY_IDENTIFIER) == Str(SubjectKeyIdentifier(d))
  {
    Map(WithExtensions(NameEntries(d), d))
  }

  /** The later entries leave every other key as the earlier ones wrote it. */
  lemma WithExtensionsKeeps(m: map<string, V>, d: X509Data, k: string)
    requires k != VALID_TO && k != VALID_FROM && k != BASIC_CONSTRAINTS && k != KEY_USAGE
    requires k != EXTENDED_KEY_USAGE && k != SUBJECT_KEY_IDENTIFIER && k != AUTHORITY_KEY_IDENTIFIER
    ensures k in WithExtensions(m, d) <==> k in m
    ensures k in m ==> WithExtensions(m, d)[k] == m[k]
  {
  }

  // What _initLLSD writes under each key.

  lemma InitLLSDSubject(d: X509Data)
    ensures var r := InitLLSD(d).m;
      && SUBJECT_NAME in r && r[SUBJECT_NAME] == NameMap(d.subject)
      && SUBJECT_NAME_STRING in r && r[SUBJECT_NAME_STRING] == Str(d.subjectString)
  {
    var m := NameEntries(d);
    NameEntriesNames(d);
    WithExtensionsKeeps(m, d, SUBJECT_NAME);
    WithExtensionsKeeps(m, d, SUBJECT_NAME_STRING);
  }

  lemma InitLLSDIssuer(d: X509Data)
    ensures var r := InitLLSD(d).m;
      && ISSUER_NAME in r && r[ISSUER_NAME] == NameMap(d.issuer)
      && ISSUER_NAME_STRING in r && r[ISSUER_NAME_STRING] == Str(d.issuerString)
  {
    var m := NameEntries(d);
    NameEntriesNames(d);
    WithExtensionsKeeps(m, d, ISSUER_NAME);
    WithExtensionsKeeps(m, d, ISSUER_NAME_STRING);
  }

  lemma NameEntriesNames(d: X509Data)
    ensures var m := NameEntries(d);
      && SUBJECT_NAME in m && m[SUBJECT_NAME] == NameMap(d.subject)
      && SUBJECT_NAME_STRING in m && m[SUBJECT_NAME_STRING] == Str(d.subjectString)
      && ISSUER_NAME in m && m[ISSUER_NAME] == NameMap(d.issuer)
      && ISSUER_NAME_STRING in m && m[ISSUER_NAME_STRING] == Str(d.issuerString)
  {
  }

  /** The serial number is present exactly when the certificate has one. */
  lemma InitLLSDSerial(d: X509Data)
    ensures var r := InitLLSD(d).m;
      && (SERIAL_NUMBER in r <==> d.serial.Some?)
      && (d.serial.Some? ==> r[SERIAL_NUMBER] == Str(d.serial.value))
  {
    WithExtensionsKeeps(NameEntries(d), d, SERIAL_NUMBER);
  }

  lemma InitLLSDValidity(d: X509Data)
    ensures var r := InitLLSD(d).m;
      && VALID_FROM in r && r[VALID_FROM] == Date(d.validFrom)
      && VALID_TO in r && r[VALID_TO] == Date(d.validTo)
  {
  }

  /** The constraint extensions: the keys are always written, undefined when the extension is absent. */
  lemma InitLLSDConstraints(d: X509Data)
    ensures var r := InitLLSD(d).m;
      && BASIC_CONSTRAINTS in r && r[BASIC_CONSTRAINTS] == BasicConstraintsExt(d.basicConstraints)
      && KEY_USAGE in r && r[KEY_USAGE] == KeyUsageExt(d.keyUsage)
  {
  }

  lemma InitLLSDExtKeyUsage(d: X509Data)
    ensures var r := InitLLSD(d).m;
      && EXTENDED_KEY_USAGE in r
      && (d.extKeyUsage.None? ==> r[EXTENDED_KEY_USAGE] == Undef)
      && (d.extKeyUsage.Some? ==> r[EXTENDED_KEY_USAGE] == Arr(StrArray(ExtKeyUsageNames(d.extKeyUsage.value))))
  {
  }

  lemma InitLLSDAuthorityKeyId(d: X509Data)
    ensures var r := InitLLSD(d).m;
      AUTHORITY_KEY_IDENTIFIER in r && r[AUTHORITY_KEY_IDENTIFIER] == AuthorityKeyIdExt(d.authorityKeyId)
  {
  }

  /**
   * LLBasicCertificate: the decoded certificate, the property map getLLSD
   * hands out (`info`, the map _initLLSD builds from `data`), and the memo
   * field mLLSDInfo, undefined until the first getLLSD.  The certificate
   * vectors and the store read `info`, which is what getLLSD returns.
   */
  class Certificate {
    const data: X509Data
    const info: V
    var llsdInfo: V

    ghost predicate Valid()
      reads this
    {
      info == InitLLSD(data) && (llsdInfo == Undef || llsdInfo == info)
    }

    constructor (d: X509Data)
      ensures data == d && info == InitLLSD(d) && llsdInfo == Undef && Valid()
    {
      data := d;
      info := InitLLSD(d);
      llsdInfo := Undef;
    }

    /** getLLSD: builds the map on first use and returns the memoised copy afterwards. */
    method GetLLSD() returns (llsd: V)
      requires Valid()
      modifies this
      ensures Valid() && llsdInfo == info && llsd == info
    {
      if llsdInfo == Undef {
        llsdInfo := InitLLSD(data);
      }
      llsd := llsdInfo;
    }
  }
}
