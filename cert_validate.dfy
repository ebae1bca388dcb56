/**
 * The per-certificate policy checks of _validateCert, over a certificate's
 * property map, and what they mean for a certificate built from decoded
 * X.509 data.
 */
module CertValidate {
  import opened LLSD
  import opened CertFields

  /**
   * The validation policy.  The source passes a bit mask of
   * VALIDATION_POLICY_* flags; each flag is a field here, and clearing
   * flags with `&= ~` is a record update.
   */
  datatype Policy = Policy(
    time: bool,                 // VALIDATION_POLICY_TIME
    sslKeyUsage: bool,          // VALIDATION_POLICY_SSL_KU
    caKeyUsage: bool,           // VALIDATION_POLICY_CA_KU
    caBasicConstraints: bool,   // VALIDATION_POLICY_CA_BASIC_CONSTRAINTS
    hostname: bool,             // VALIDATION_POLICY_HOSTNAME
    trusted: bool)              // VALIDATION_POLICY_TRUSTED

  const TimeOnly := Policy(true, false, false, false, false, false)
  const BasicConstraintsOnly := Policy(false, false, false, true, false, false)

  /** Why an LLCertException was raised. */
  datatype Reason =
    | NoSubjectName | NoIssuerName | NoExpirationPeriod | NoSubjectKeyIdKey
    | NoCertsInChain | NoHostname | EmptySubjectKeyId

  /** The exception classes the validation code throws, each carrying the certificate's property map. */
  datatype CertError =
    | CertException(info: V, reason: Reason)
    | InvalidCertificate(info: V)
    | ExpirationException(info: V, date: int)
    | KeyUsageException(info: V)
    | BasicConstraintsException(info: V)
    | InvalidSignatureException(info: V)
    | HostnameException(hostname: string, info: V)
    | TrustException(info: V)

  /** A check either returns normally or throws. */
  datatype Check = Pass | Throw(error: CertError)

  /** The validation_date parameter when given, else the current time `now`. */
  function ValidationDate(params: V, now: int): int
  {
    if Has(params, VALIDATION_DATE) then AsDate(Get(params, VALIDATION_DATE)) else now
  }

  /** The map holds an array under `key` that does not include the string `name`. */
  predicate ArrayLacks(info: V, key: string, name: string)
  {
    Has(info, key) && Get(info, key).Arr? && !ArrayIncludesValue(Get(info, key), Str(name))
  }

  predicate HasRequiredKeys(info: V)
  {
    Has(info, SUBJECT_NAME) && Has(info, SUBJECT_NAME_STRING) && Has(info, ISSUER_NAME_STRING)
    && Has(info, VALID_FROM) && Has(info, VALID_TO) && Has(info, SUBJECT_KEY_IDENTIFIER)
  }

  /** The basic-constraints test, applied when the extension is present as a map. */
  predicate ConstraintsViolated(bc: V, depth: int)
  {
    || !Has(bc, BASIC_CONSTRAINTS_CA)
    || !AsBoolean(Get(bc, BASIC_CONSTRAINTS_CA))
    || (Has(bc, BASIC_CONSTRAINTS_PATHLEN)
        && AsInteger(Get(bc, BASIC_CONSTRAINTS_PATHLEN)) != 0
        && depth > AsInteger(Get(bc, BASIC_CONSTRAINTS_PATHLEN)))
  }

  /**
   * _validateCert: the required keys first, then, as the policy asks, the
   * validity window (inclusive at both ends), the SSL key usages, the CA
   * key usage and the basic constraints, `depth` being the certificate's
   * distance from the leaf.
   */
  function ValidateCert(policy: Policy, info: V, params: V, depth: int, now: int): (r: Check)
    ensures r.Throw? ==> r.error.info == info
    ensures !HasRequiredKeys(info) <==> r.Throw? && r.error.CertException?
    ensures r.Throw? && r.error.ExpirationException? ==> policy.time && r.error.date == ValidationDate(params, now)
    ensures r.Throw? && r.error.KeyUsageException? ==> policy.sslKeyUsage || policy.caKeyUsage
    ensures r.Throw? && r.error.BasicConstraintsException? ==> policy.caBasicConstraints
    ensures r.Throw? ==>
      || r.error.CertException? || r.error.ExpirationException?
      || r.error.KeyUsageException? || r.error.BasicConstraintsException?
  {
    if !Has(info, SUBJECT_NAME) || !Has(info, SUBJECT_NAME_STRING) then Throw(CertException(info, NoSubjectName))
    else if !Has(info, ISSUER_NAME_STRING) then Throw(CertException(info, NoIssuerName))
    else if !Has(info, VALID_FROM) || !Has(info, VALID_TO) then Throw(CertException(info, NoExpirationPeriod))
    else if !Has(info, SUBJECT_KEY_IDENTIFIER) then Throw(CertException(info, NoSubjectKeyIdKey))
    else PolicyChecks(policy, info, ValidationDate(params, now), depth)
  }

  /** The checks _validateCert makes, as the policy asks, once the required keys are known to be there. */
  function PolicyChecks(policy: Policy, info: V, date: int, depth: int): (r: Check)
    ensures r.Throw? ==> r.error.info == info
    ensures r.Throw? && r.error.ExpirationException? ==> policy.time && r.error.date == date
    ensures r.Throw? && r.error.KeyUsageException? ==> policy.sslKeyUsage || policy.caKeyUsage
    ensures r.Throw? && r.error.BasicConstraintsException? ==> policy.caBasicConstraints
    ensures r.Throw? ==>
      || r.error.ExpirationException? || r.error.KeyUsageException? || r.error.BasicConstraintsException?
  {
    if policy.time && (date < AsDate(Get(info, VALID_FROM)) || date > AsDate(Get(info, VALID_TO))) then
      Throw(ExpirationException(info, date))
    else if policy.sslKeyUsage &&
      (ArrayLacks(info, KEY_USAGE, KU_DIGITAL_SIGNATURE) || ArrayLacks(info, KEY_USAGE, KU_KEY_ENCIPHERMENT)) then
      Throw(KeyUsageException(info))
    else if policy.sslKeyUsage && ArrayLacks(info, EXTENDED_KEY_USAGE, EKU_SERVER_AUTH) then
      Throw(KeyUsageException(info))
    else if policy.caKeyUsage && ArrayLacks(info, KEY_USAGE, KU_CERT_SIGN) then
      Throw(KeyUsageException(info))
    else if policy.caBasicConstraints && Has(info, BASIC_CONSTRAINTS) && Get(info, BASIC_CONSTRAINTS).Map?
      && ConstraintsViolated(Get(info, BASIC_CONSTRAINTS), depth) then
      Throw(BasicConstraintsException(info))
    else Pass
  }

  // ---- The same checks stated on the decoded certificate ----

  /** The key-usage extension is present and entry `i` of KeyUsageTable is not among its bits. */
  predicate UsageMissing(d: X509Data, i: nat)
    requires i < |KeyUsageTable|
  {
    d.keyUsage.Some? && !UsageSet(UsageWord(d.keyUsage.value), i)
  }

  /** The extended-key-usage extension is present and does not list serverAuth. */
  predicate ServerAuthMissing(d: X509Data)
  {
    d.extKeyUsage.Some? && Some(EKU_SERVER_AUTH) !in d.extKeyUsage.value
  }

  /** The path length a CA certificate's map carries for a decoded pathLenConstraint. */
  function PathLimit(p: int): int
  {
    if p < 0 then 0 else ToInt32(Asn1IntegerGet(p))
  }

  predicate DecodedConstraintsViolated(bc: BasicConstraints, depth: int)
  {
    !bc.ca || (bc.pathLen.Some? && PathLimit(bc.pathLen.value) != 0 && depth > PathLimit(bc.pathLen.value))
  }

  /**
   * Reference definition of _validateCert on a decoded certificate (whose
   * property map `info` only appears in the exception): validity period,
   * the key-usage bits digitalSignature (entry 0), keyEncipherment (2) and
   * keyCertSign (5), serverAuth, the CA flag and the path length.
   */
  function DecodedCheck(policy: Policy, d: X509Data, info: V, date: int, depth: int): Check
  {
    if policy.time && (date < d.validFrom || date > d.validTo) then Throw(ExpirationException(info, date))
    else if policy.sslKeyUsage && (UsageMissing(d, 0) || UsageMissing(d, 2) || ServerAuthMissing(d)) then
      Throw(KeyUsageException(info))
    else if policy.caKeyUsage && UsageMissing(d, 5) then Throw(KeyUsageException(info))
    else if policy.caBasicConstraints && d.basicConstraints.Some?
      && DecodedConstraintsViolated(d.basicConstraints.value, depth) then
      Throw(BasicConstraintsException(info))
    else Pass
  }

  lemma KeyUsageLacks(d: X509Data, i: nat)
    requires i < |KeyUsageTable|
    ensures ArrayLacks(InitLLSD(d), KEY_USAGE, KeyUsageTable[i].1) <==> UsageMissing(d, i)
  {
    InitLLSDConstraints(d);
  }

  lemma ServerAuthLacks(d: X509Data)
    ensures ArrayLacks(InitLLSD(d), EXTENDED_KEY_USAGE, EKU_SERVER_AUTH) <==> ServerAuthMissing(d)
  {
    InitLLSDExtKeyUsage(d);
    if d.extKeyUsage.Some? {
      var names := ExtKeyUsageNames(d.extKeyUsage.value);
      var arr := StrArray(names);
      if Str(EKU_SERVER_AUTH) in arr {
        var j :| 0 <= j < |arr| && arr[j] == Str(EKU_SERVER_AUTH);
        assert names[j] == EKU_SERVER_AUTH;
      }
      if EKU_SERVER_AUTH in names {
        var j :| 0 <= j < |names| && names[j] == EKU_SERVER_AUTH;
        assert arr[j] == Str(EKU_SERVER_AUTH);
      }
    }
  }

  lemma ConstraintsOfDecoded(d: X509Data, depth: int)
    ensures var bc := InitLLSD(d).m[BASIC_CONSTRAINTS];
      (d.basicConstraints.Some? <==> bc.Map?)
      && (d.basicConstraints.Some? ==>
            (ConstraintsViolated(bc, depth) <==> DecodedConstraintsViolated(d.basicConstraints.value, depth)))
  {
    InitLLSDConstraints(d);
  }

  lemma RequiredKeysOfDecoded(d: X509Data)
    ensures HasRequiredKeys(InitLLSD(d))
  {
    InitLLSDSubject(d);
    InitLLSDIssuer(d);
    InitLLSDValidity(d);
  }

  /** For a certificate built from decoded data, _validateCert is exactly the reference definition. */
  lemma ValidateDecoded(policy: Policy, d: X509Data, params: V, depth: int, now: int)
    ensures ValidateCert(policy, InitLLSD(d), params, depth, now)
         == DecodedCheck(policy, d, InitLLSD(d), ValidationDate(params, now), depth)
  {
    RequiredKeysOfDecoded(d);
    PolicyChecksOfDecoded(policy, d, ValidationDate(params, now), depth);
  }

  lemma PolicyChecksOfDecoded(policy: Policy, d: X509Data, date: int, depth: int)
    ensures PolicyChecks(policy, InitLLSD(d), date, depth) == DecodedCheck(policy, d, InitLLSD(d), date, depth)
  {
    var info := InitLLSD(d);
    InitLLSDValidity(d);
    assert AsDate(Get(info, VALID_FROM)) == d.validFrom && AsDate(Get(info, VALID_TO)) == d.validTo;
    KeyUsageLacks(d, 0);
    KeyUsageLacks(d, 2);
    KeyUsageLacks(d, 5);
    assert KeyUsageTable[0].1 == KU_DIGITAL_SIGNATURE && KeyUsageTable[2].1 == KU_KEY_ENCIPHERMENT;
    assert KeyUsageTable[5].1 == KU_CERT_SIGN;
    ServerAuthLacks(d);
    ConstraintsOfDecoded(d, depth);
    assert Has(info, BASIC_CONSTRAINTS);
  }

  /** A decoded certificate is never rejected for a missing key. */
  lemma DecodedHasNoMissingKeys(policy: Policy, d: X509Data, params: V, depth: int, now: int)
    ensures var r := ValidateCert(policy, InitLLSD(d), params, depth, now);
      r.Throw? ==> !r.error.CertException?
  {
    RequiredKeysOfDecoded(d);
  }

  /** Under the time policy alone a decoded certificate passes exactly inside its validity period. */
  lemma TimeWindow(d: X509Data, params: V, depth: int, now: int)
    ensures var date := ValidationDate(params, now);
      ValidateCert(TimeOnly, InitLLSD(d), params, depth, now)
        == if d.validFrom <= date <= d.validTo then Pass else Throw(ExpirationException(InitLLSD(d), date))
  {
    ValidateDecoded(TimeOnly, d, params, depth, now);
  }

  /**
   * SSL key usage: a key-usage extension that is present but names no
   * usage at all fails; one that is absent passes.
   */
  lemma SslKeyUsageEmptyFails(policy: Policy, d: X509Data, params: V, depth: int, now: int)
    requires policy.sslKeyUsage && !policy.time
    requires d.keyUsage.Some? && UsageWord(d.keyUsage.value) == 0
    ensures ValidateCert(policy, InitLLSD(d), params, depth, now) == Throw(KeyUsageException(InitLLSD(d)))
  {
    ValidateDecoded(policy, d, params, depth, now);
  }

  lemma SslKeyUsageAbsentPasses(d: X509Data, params: V, depth: int, now: int)
    requires d.keyUsage.None? && d.extKeyUsage.None?
    ensures ValidateCert(Policy(false, true, true, false, false, false), InitLLSD(d), params, depth, now) == Pass
  {
    ValidateDecoded(Policy(false, true, true, false, false, false), d, params, depth, now);
  }

  /**
   * A CA certificate with pathLenConstraint 0 passes at every depth: 0 is
   * read as "no limit" (section 4.2.1.9 of RFC 5280 reads it as "no
   * intermediate CA may follow").
   */
  lemma PathLenZeroIsNoLimit(d: X509Data, params: V, depth: int, now: int)
    requires d.basicConstraints == Some(BasicConstraints(true, Some(0)))
    ensures ValidateCert(BasicConstraintsOnly, InitLLSD(d), params, depth, now) == Pass
  {
    ValidateDecoded(BasicConstraintsOnly, d, params, depth, now);
  }

  /** A positive pathLenConstraint below 2^31 is exceeded exactly when the depth is greater. */
  lemma PathLenPositive(d: X509Data, p: int, params: V, depth: int, now: int)
    requires 0 < p < 0x8000_0000 && d.basicConstraints == Some(BasicConstraints(true, Some(p)))
    ensures ValidateCert(BasicConstraintsOnly, InitLLSD(d), params, depth, now)
         == if depth > p then Throw(BasicConstraintsException(InitLLSD(d))) else Pass
  {
    ValidateDecoded(BasicConstraintsOnly, d, params, depth, now);
  }

  /** A certificate that is not a CA fails the basic-constraints policy whatever its path length. */
  lemma NotCaFails(d: X509Data, params: V, depth: int, now: int)
    requires d.basicConstraints.Some? && !d.basicConstraints.value.ca
    ensures ValidateCert(BasicConstraintsOnly, InitLLSD(d), params, depth, now) == Throw(BasicConstraintsException(InitLLSD(d)))
  {
    ValidateDecoded(BasicConstraintsOnly, d, params, depth, now);
  }
}
