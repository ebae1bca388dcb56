/**
 * LLBasicCertificateStore: a certificate vector of trusted CA certificates
 * plus the cache of already validated leaf certificates (subject key id to
 * validity period), and `validate`, which walks a chain against both.
 */
module CertStore {
  import opened LLSD
  import opened CertFields
  import opened CertVector
  import opened CertValidate
  import opened Hostname

  /** A validity period (valid from, valid to), in seconds. */
  type Window = (int, int)

  /** The subject common name of a property map, as a string. */
  function CommonName(info: V): string
  {
    AsString(Get(Get(info, SUBJECT_NAME), NAME_CN))
  }

  /** The hostname policy, checked first: a hostname parameter and a subject CN that matches it. */
  function HostnameCheck(policy: Policy, info: V, params: V): (r: Check)
    ensures !policy.hostname ==> r == Pass
    ensures r.Throw? ==> r.error.info == info
    ensures r.Throw? && r.error.HostnameException? ==>
      r.error.hostname == AsString(Get(params, HOSTNAME)) && !HostnameMatches(r.error.hostname, CommonName(info))
  {
    if !policy.hostname then Pass
    else if !Has(params, HOSTNAME) then Throw(CertException(info, NoHostname))
    else if !Has(info, SUBJECT_NAME) || !Has(Get(info, SUBJECT_NAME), NAME_CN) then Throw(InvalidCertificate(info))
    else
      var host := AsString(Get(params, HOSTNAME));
      if HostnameMatches(host, CommonName(info)) then Pass else Throw(HostnameException(host, info))
  }

  /** A cache hit: only the time policy is checked, against the cached period. */
  function CachedCheck(policy: Policy, info: V, w: Window, params: V, now: int): (r: Check)
    ensures r == Pass <==> !policy.time || w.0 <= ValidationDate(params, now) <= w.1
  {
    var date := ValidationDate(params, now);
    if policy.time && (date < w.0 || date > w.1) then Throw(ExpirationException(info, date)) else Pass
  }

  /** The leaf's validity period as its property map gives it. */
  function LeafWindow(info: V): Window
  {
    (AsDate(Get(info, VALID_FROM)), AsDate(Get(info, VALID_TO)))
  }

  /** The leaf is checked without the CA policies, every other certificate without the SSL key usages. */
  function LocalPolicy(policy: Policy, depth: nat): Policy
  {
    if depth == 0 then policy.(caKeyUsage := false, caBasicConstraints := false)
    else policy.(sslKeyUsage := false)
  }

  /** A store CA found as issuer is checked for the basic constraints only (when the policy asks for them). */
  function StoreCertPolicy(policy: Policy): Policy
  {
    Policy(false, false, false, policy.caBasicConstraints, false, false)
  }

  /**
   * The search for the issuer in the store: its subject-name string, and,
   * when the certificate carries an authority key identifier, the key id
   * as subject key id and the serial as serial number.
   */
  function IssuerSearch(info: V): (r: V)
    ensures r.Map? && r.m.Keys <= {SUBJECT_NAME_STRING, SUBJECT_KEY_IDENTIFIER, SERIAL_NUMBER}
    ensures SUBJECT_NAME_STRING in r.m && r.m[SUBJECT_NAME_STRING] == Get(info, ISSUER_NAME_STRING)
    ensures var aki := Get(info, AUTHORITY_KEY_IDENTIFIER);
      && (SUBJECT_KEY_IDENTIFIER in r.m <==> Has(info, AUTHORITY_KEY_IDENTIFIER) && Has(aki, AUTHORITY_KEY_IDENTIFIER_ID))
      && (SUBJECT_KEY_IDENTIFIER in r.m ==> r.m[SUBJECT_KEY_IDENTIFIER] == Get(aki, AUTHORITY_KEY_IDENTIFIER_ID))
      && (SERIAL_NUMBER in r.m <==> Has(info, AUTHORITY_KEY_IDENTIFIER) && Has(aki, AUTHORITY_KEY_IDENTIFIER_SERIAL))
      && (SERIAL_NUMBER in r.m ==> r.m[SERIAL_NUMBER] == Get(aki, AUTHORITY_KEY_IDENTIFIER_SERIAL))
  {
    var base := map[SUBJECT_NAME_STRING := Get(info, ISSUER_NAME_STRING)];
    if !Has(info, AUTHORITY_KEY_IDENTIFIER) then Map(base)
    else
      var aki := Get(info, AUTHORITY_KEY_IDENTIFIER);
      var withId := if Has(aki, AUTHORITY_KEY_IDENTIFIER_ID) then base[SUBJECT_KEY_IDENTIFIER := Get(aki, AUTHORITY_KEY_IDENTIFIER_ID)] else base;
      Map(if Has(aki, AUTHORITY_KEY_IDENTIFIER_SERIAL) then withId[SERIAL_NUMBER := Get(aki, AUTHORITY_KEY_IDENTIFIER_SERIAL)] else withId)
  }

  /** What the issuer search requires of a store certificate. */
  predicate IsIssuerOf(ca: V, info: V)
  {
    var aki := Get(info, AUTHORITY_KEY_IDENTIFIER);
    && Has(ca, SUBJECT_NAME_STRING) && Get(ca, SUBJECT_NAME_STRING) == Get(info, ISSUER_NAME_STRING)
    && (Has(info, AUTHORITY_KEY_IDENTIFIER) && Has(aki, AUTHORITY_KEY_IDENTIFIER_ID) ==>
          Has(ca, SUBJECT_KEY_IDENTIFIER) && Get(ca, SUBJECT_KEY_IDENTIFIER) == Get(aki, AUTHORITY_KEY_IDENTIFIER_ID))
    && (Has(info, AUTHORITY_KEY_IDENTIFIER) && Has(aki, AUTHORITY_KEY_IDENTIFIER_SERIAL) ==>
          Has(ca, SERIAL_NUMBER) && Get(ca, SERIAL_NUMBER) == Get(aki, AUTHORITY_KEY_IDENTIFIER_SERIAL))
  }

  /** A store certificate matches the issuer search exactly when it names itself as that issuer. */
  lemma IssuerSearchMatches(ca: V, info: V)
    ensures Matches(ca, IssuerSearch(info)) <==> IsIssuerOf(ca, info)
  {
    ValueCompareIsEqualityAll();
    var p := IssuerSearch(info);
    assert SUBJECT_NAME_STRING in p.m && p.m[SUBJECT_NAME_STRING] == Get(info, ISSUER_NAME_STRING);
    var aki := Get(info, AUTHORITY_KEY_IDENTIFIER);
    if Has(info, AUTHORITY_KEY_IDENTIFIER) && Has(aki, AUTHORITY_KEY_IDENTIFIER_ID) {
      assert SUBJECT_KEY_IDENTIFIER in p.m && p.m[SUBJECT_KEY_IDENTIFIER] == Get(aki, AUTHORITY_KEY_IDENTIFIER_ID);
    }
    if Has(info, AUTHORITY_KEY_IDENTIFIER) && Has(aki, AUTHORITY_KEY_IDENTIFIER_SERIAL) {
      assert SERIAL_NUMBER in p.m && p.m[SERIAL_NUMBER] == Get(aki, AUTHORITY_KEY_IDENTIFIER_SERIAL);
    }
  }

  /** One certificate of the walk either ends it with an outcome or passes on to the next. */
  datatype Step = Continue | Stop(outcome: Check)

  /**
   * The chain walk of validate at `depth`: check the signature over the
   * previous certificate (past the leaf) and the certificate itself; stop
   * with success when the store holds the certificate itself (by subject
   * key id), or holds its issuer, which must pass the basic constraints at
   * this depth and have signed the certificate; otherwise go on.
   */
  function WalkStep(policy: Policy, chain: seq<Certificate>, store: seq<Certificate>, params: V, now: int,
                    signs: (X509Data, X509Data) -> bool, depth: nat): Step
    requires depth < |chain|
  {
    var current := chain[depth];
    if depth > 0 && !signs(current.data, chain[depth - 1].data) then
      Stop(Throw(InvalidSignatureException(chain[depth - 1].info)))
    else
      var check := ValidateCert(LocalPolicy(policy, depth), current.info, params, depth, now);
      if check.Throw? then Stop(check) else StoreStep(policy, current, store, now, signs, depth)
  }

  /**
   * The store's part of a step: success when the store holds the
   * certificate itself; when it holds the issuer, that CA's basic
   * constraints at this depth and its signature decide; otherwise go on.
   */
  function StoreStep(policy: Policy, current: Certificate, store: seq<Certificate>, now: int,
                     signs: (X509Data, X509Data) -> bool, depth: nat): Step
  {
    if FirstMatch(store, SkidPattern(Get(current.info, SUBJECT_KEY_IDENTIFIER))) < |store| then Stop(Pass)
    else
      var k := FirstMatch(store, IssuerSearch(current.info));
      if k < |store| then
        var caCheck := ValidateCert(StoreCertPolicy(policy), store[k].info, Undef, depth, now);
        if caCheck.Throw? then Stop(caCheck)
        else if signs(store[k].data, current.data) then Stop(Pass)
        else Stop(Throw(InvalidSignatureException(current.info)))
      else Continue
  }

  /**
   * The walk from `depth` on; past the last certificate the trusted policy
   * fails naming the last certificate.  Pass means "cache the leaf".
   */
  function Walk(policy: Policy, chain: seq<Certificate>, store: seq<Certificate>, params: V, now: int,
                signs: (X509Data, X509Data) -> bool, depth: nat): Check
    requires 0 < |chain| && depth <= |chain|
    decreases |chain| - depth
  {
    if depth == |chain| then
      if policy.trusted then Throw(TrustException(chain[|chain| - 1].info)) else Pass
    else
      match WalkStep(policy, chain, store, params, now, signs, depth)
      case Stop(outcome) => outcome
      case Continue => Walk(policy, chain, store, params, now, signs, depth + 1)
  }

  /** One step of the walk, with the step itself left folded. */
  lemma WalkUnfold(policy: Policy, chain: seq<Certificate>, store: seq<Certificate>, params: V, now: int,
                   signs: (X509Data, X509Data) -> bool, depth: nat)
    requires depth < |chain|
    ensures var step := WalkStep(policy, chain, store, params, now, signs, depth);
      Walk(policy, chain, store, params, now, signs, depth)
        == if step.Stop? then step.outcome else Walk(policy, chain, store, params, now, signs, depth + 1)
  {
  }

  /**
   * LLBasicCertificateStore::validate as a function of the store contents
   * and the old cache: the outcome and the new cache.  `noVerify` is the
   * NoVerifySSLCert setting, `now` the current time, `signs(parent, child)`
   * the OpenSSL signature check.
   */
  function ValidateSpec(noVerify: bool, policy: Policy, chain: seq<Certificate>, store: seq<Certificate>,
                        cache: map<string, Window>, params: V, now: int,
                        signs: (X509Data, X509Data) -> bool): (r: (Check, map<string, Window>))
    ensures r.0.Throw? ==> r.1 == cache
    ensures r.1 == cache || (r.0.Pass? && |chain| > 0 && r.1 == cache[SubjectKeyIdentifier(chain[0].data) := LeafWindow(chain[0].info)])
    ensures r.0.Pass? && !noVerify ==> |chain| > 0 && SubjectKeyIdentifier(chain[0].data) in r.1
    ensures !noVerify && chain == [] ==> r.0 == Throw(CertException(Map(map[]), NoCertsInChain))
    ensures !noVerify && |chain| > 0 && HostnameCheck(policy, chain[0].info, params).Throw? ==>
      r.0 == HostnameCheck(policy, chain[0].info, params)
    ensures !noVerify && |chain| > 0 && HostnameCheck(policy, chain[0].info, params).Pass? && SubjectKeyIdentifier(chain[0].data) == "" ==>
      r.0 == Throw(CertException(chain[0].info, EmptySubjectKeyId))
  {
    if noVerify then (Pass, cache)
    else if chain == [] then (Throw(CertException(Map(map[]), NoCertsInChain)), cache)
    else
      var info := chain[0].info;
      var hostCheck := HostnameCheck(policy, info, params);
      if hostCheck.Throw? then (hostCheck, cache)
      else
        var skeyid := SubjectKeyIdentifier(chain[0].data);
        if skeyid == "" then (Throw(CertException(info, EmptySubjectKeyId)), cache)
        else if skeyid in cache then (CachedCheck(policy, info, cache[skeyid], params, now), cache)
        else
          var walk := Walk(policy, chain, store, params, now, signs, 0);
          if walk.Throw? then (walk, cache) else (Pass, cache[skeyid := LeafWindow(info)])
  }

  // ---- What the walk guarantees ----

  /** The certificate at index i of the chain passed its own checks, and (past the leaf) its signature check. */
  predicate Checked(policy: Policy, chain: seq<Certificate>, params: V, now: int,
                    signs: (X509Data, X509Data) -> bool, i: nat)
    requires i < |chain|
  {
    && (i > 0 ==> signs(chain[i].data, chain[i - 1].data))
    && ValidateCert(LocalPolicy(policy, i), chain[i].info, params, i, now) == Pass
  }

  /** The store holds the certificate itself, or a CA that is its issuer, passes at that depth and signed it. */
  predicate Anchored(policy: Policy, c: Certificate, store: seq<Certificate>, now: int,
                     signs: (X509Data, X509Data) -> bool, depth: nat)
  {
    || ContainsSkid(store, Get(c.info, SUBJECT_KEY_IDENTIFIER))
    || exists k | 0 <= k < |store| ::
         && IsIssuerOf(store[k].info, c.info)
         && ValidateCert(StoreCertPolicy(policy), store[k].info, Undef, depth, now) == Pass
         && signs(store[k].data, c.data)
  }

  /**
   * A walk from `depth` that succeeds checked every certificate up to some
   * index k, and k is anchored in the store, or (only without the trusted
   * policy) k is the end of the chain.
   */
  lemma {:induction false} WalkPassChecked(policy: Policy, chain: seq<Certificate>, store: seq<Certificate>, params: V,
                                           now: int, signs: (X509Data, X509Data) -> bool, depth: nat)
    requires 0 < |chain| && depth <= |chain|
    requires Walk(policy, chain, store, params, now, signs, depth) == Pass
    ensures exists k | depth <= k <= |chain| :: CheckedUpTo(policy, chain, store, params, now, signs, depth, k)
    decreases |chain| - depth
  {
    if depth == |chain| {
      assert CheckedUpTo(policy, chain, store, params, now, signs, depth, depth);
    } else {
      StepOutcome(policy, chain, store, params, now, signs, depth);
      var step := WalkStep(policy, chain, store, params, now, signs, depth);
      if step.Continue? {
        WalkPassChecked(policy, chain, store, params, now, signs, depth + 1);
        var k :| depth + 1 <= k <= |chain| && CheckedUpTo(policy, chain, store, params, now, signs, depth + 1, k);
        assert CheckedUpTo(policy, chain, store, params, now, signs, depth, k);
      } else {
        assert step == Stop(Pass);
        assert CheckedUpTo(policy, chain, store, params, now, signs, depth, depth);
      }
    }
  }

  /**
   * Every certificate from `depth` up to `k` passed its checks, and `k` is
   * anchored in the store, or (only without the trusted policy) k is the
   * end of the chain.
   */
  predicate CheckedUpTo(policy: Policy, chain: seq<Certificate>, store: seq<Certificate>, params: V,
                        now: int, signs: (X509Data, X509Data) -> bool, depth: nat, k: nat)
    requires k <= |chain|
  {
    && (forall i | depth <= i < k :: Checked(policy, chain, params, now, signs, i))
    && (k < |chain| ==> Checked(policy, chain, params, now, signs, k) && Anchored(policy, chain[k], store, now, signs, k))
    && (k == |chain| ==> !policy.trusted)
  }

  /** A step that goes on checked its certificate; one that stops with success also found it anchored. */
  lemma StepOutcome(policy: Policy, chain: seq<Certificate>, store: seq<Certificate>, params: V,
                    now: int, signs: (X509Data, X509Data) -> bool, depth: nat)
    requires depth < |chain|
    ensures var s := WalkStep(policy, chain, store, params, now, signs, depth);
      (s.Continue? || s == Stop(Pass)) ==> Checked(policy, chain, params, now, signs, depth)
    ensures WalkStep(policy, chain, store, params, now, signs, depth) == Stop(Pass) ==>
      Anchored(policy, chain[depth], store, now, signs, depth)
    ensures WalkStep(policy, chain, store, params, now, signs, depth).Continue? ==>
      && !ContainsSkid(store, Get(chain[depth].info, SUBJECT_KEY_IDENTIFIER))
      && forall k | 0 <= k < |store| :: !IsIssuerOf(store[k].info, chain[depth].info)
  {
    var current := chain[depth];
    var id := Get(current.info, SUBJECT_KEY_IDENTIFIER);
    FirstMatchSkid(store, id);
    var k := FirstMatch(store, IssuerSearch(current.info));
    if k < |store| {
      IssuerSearchMatches(store[k].info, current.info);
    } else {
      forall j | 0 <= j < |store| ensures !IsIssuerOf(store[j].info, current.info) {
        IssuerSearchMatches(store[j].info, current.info);
      }
    }
  }

  /** Under the trusted policy, a successful walk found some chain certificate anchored in the store. */
  lemma TrustedPassIsAnchored(policy: Policy, chain: seq<Certificate>, store: seq<Certificate>, params: V,
                              now: int, signs: (X509Data, X509Data) -> bool)
    requires 0 < |chain| && policy.trusted
    requires Walk(policy, chain, store, params, now, signs, 0) == Pass
    ensures exists k | 0 <= k < |chain| :: Anchored(policy, chain[k], store, now, signs, k)
  {
    WalkPassChecked(policy, chain, store, params, now, signs, 0);
    var k :| 0 <= k <= |chain| && CheckedUpTo(policy, chain, store, params, now, signs, 0, k);
    assert Anchored(policy, chain[k], store, now, signs, k);
  }

  /**
   * When no chain certificate from `depth` on has a match in the store,
   * and all of them pass their checks, the trusted policy fails naming the
   * last certificate of the chain.
   */
  lemma {:induction false} UnanchoredChainUntrusted(policy: Policy, chain: seq<Certificate>, store: seq<Certificate>,
                                                    params: V, now: int, signs: (X509Data, X509Data) -> bool, depth: nat)
    requires 0 < |chain| && depth <= |chain| && policy.trusted
    requires forall i | depth <= i < |chain| :: Checked(policy, chain, params, now, signs, i)
    requires forall i | depth <= i < |chain| ::
      && !ContainsSkid(store, Get(chain[i].info, SUBJECT_KEY_IDENTIFIER))
      && forall k | 0 <= k < |store| :: !IsIssuerOf(store[k].info, chain[i].info)
    ensures Walk(policy, chain, store, params, now, signs, depth) == Throw(TrustException(chain[|chain| - 1].info))
    decreases |chain| - depth
  {
    if depth < |chain| {
      StepUnanchored(policy, chain, store, params, now, signs, depth);
      UnanchoredChainUntrusted(policy, chain, store, params, now, signs, depth + 1);
    }
  }

  /** A checked certificate with nothing matching it in the store passes the walk on. */
  lemma StepUnanchored(policy: Policy, chain: seq<Certificate>, store: seq<Certificate>, params: V,
                       now: int, signs: (X509Data, X509Data) -> bool, depth: nat)
    requires depth < |chain| && Checked(policy, chain, params, now, signs, depth)
    requires !ContainsSkid(store, Get(chain[depth].info, SUBJECT_KEY_IDENTIFIER))
    requires forall k | 0 <= k < |store| :: !IsIssuerOf(store[k].info, chain[depth].info)
    ensures WalkStep(policy, chain, store, params, now, signs, depth) == Continue
  {
    var current := chain[depth];
    FirstMatchSkid(store, Get(current.info, SUBJECT_KEY_IDENTIFIER));
    var k := FirstMatch(store, IssuerSearch(current.info));
    if k < |store| {
      IssuerSearchMatches(store[k].info, current.info);
    }
  }

  /** A successful validation that missed the cache walked a checked, anchored (or untrusted-allowed) prefix. */
  lemma SuccessfulValidation(noVerify: bool, policy: Policy, chain: seq<Certificate>, store: seq<Certificate>,
                             cache: map<string, Window>, params: V, now: int, signs: (X509Data, X509Data) -> bool)
    requires !noVerify
    requires ValidateSpec(noVerify, policy, chain, store, cache, params, now, signs).0 == Pass
    requires |chain| > 0 ==> SubjectKeyIdentifier(chain[0].data) !in cache
    ensures |chain| > 0 && HostnameCheck(policy, chain[0].info, params) == Pass
    ensures exists k | 0 <= k <= |chain| :: CheckedUpTo(policy, chain, store, params, now, signs, 0, k)
    ensures ValidateSpec(noVerify, policy, chain, store, cache, params, now, signs).1
         == cache[SubjectKeyIdentifier(chain[0].data) := LeafWindow(chain[0].info)]
  {
    var r := ValidateSpec(noVerify, policy, chain, store, cache, params, now, signs);
    assert |chain| > 0;
    var hostCheck := HostnameCheck(policy, chain[0].info, params);
    assert hostCheck == Pass;
    var skeyid := SubjectKeyIdentifier(chain[0].data);
    assert skeyid != "";
    assert Walk(policy, chain, store, params, now, signs, 0) == Pass;
    WalkPassChecked(policy, chain, store, params, now, signs, 0);
  }

  /** A cached leaf is accepted without walking the chain: only the hostname and the cached period count. */
  lemma CacheHit(noVerify: bool, policy: Policy, chain: seq<Certificate>, store: seq<Certificate>,
                 cache: map<string, Window>, params: V, now: int, signs: (X509Data, X509Data) -> bool)
    requires !noVerify && |chain| > 0 && HostnameCheck(policy, chain[0].info, params) == Pass
    requires SubjectKeyIdentifier(chain[0].data) != "" && SubjectKeyIdentifier(chain[0].data) in cache
    ensures var r := ValidateSpec(noVerify, policy, chain, store, cache, params, now, signs);
      && r.1 == cache
      && (r.0 == Pass <==>
           (!policy.time || cache[SubjectKeyIdentifier(chain[0].data)].0 <= ValidationDate(params, now)
                               <= cache[SubjectKeyIdentifier(chain[0].data)].1))
  {
  }

  /** Every certificate of `certs` passing the time policy at depth 0, in order. */
  function TimeValid(certs: seq<Certificate>, now: int): (r: seq<Certificate>)
    ensures forall c | c in r :: c in certs && ValidateCert(TimeOnly, c.info, Undef, 0, now) == Pass
    ensures |r| <= |certs|
  {
    if certs == [] then []
    else
      var rest := TimeValid(certs[..|certs| - 1], now);
      var c := certs[|certs| - 1];
      if ValidateCert(TimeOnly, c.info, Undef, 0, now) == Pass then rest + [c] else rest
  }

  class CertificateStore {
    const certs: CertificateVector
    var cache: map<string, Window>

    ghost predicate Valid()
      reads this, certs
    {
      DistinctSkids(certs.certs)
    }

    constructor ()
      ensures fresh(certs) && certs.certs == [] && cache == map[] && Valid()
    {
      certs := new CertificateVector();
      cache := map[];
    }

    /**
     * load_from_file over the certificates the file decodes to: each one is
     * kept when it passes the time policy at depth 0 (now), and added.
     */
    method Load(file: seq<X509Data>, now: int) returns (ghost made: seq<Certificate>)
      requires Valid()
      modifies certs
      ensures Valid()
      ensures |made| == |file| && forall j | 0 <= j < |made| :: made[j].data == file[j]
      ensures certs.certs == AddAll(old(certs.certs), TimeValid(made, now))
    {
      made := [];
      var i := 0;
      while i < |file|
        invariant 0 <= i <= |file| && |made| == i
        invariant forall j | 0 <= j < i :: made[j].data == file[j]
        invariant certs.certs == AddAll(old(certs.certs), TimeValid(made, now))
        invariant DistinctSkids(certs.certs)
      {
        var cert, keep := Decode(file[i], now);
        assert (made + [cert])[..|made + [cert]| - 1] == made;
        if keep {
          certs.Add(cert);
          AddAllSnoc(old(certs.certs), TimeValid(made, now), cert);
        }
        made := made + [cert];
        i := i + 1;
      }
    }

    /** One certificate of the file, and whether it passes the time policy at depth 0. */
    static method Decode(d: X509Data, now: int) returns (cert: Certificate, keep: bool)
      ensures fresh(cert) && cert.data == d && Has(cert.info, SUBJECT_KEY_IDENTIFIER)
      ensures keep == (ValidateCert(TimeOnly, cert.info, Undef, 0, now) == Pass)
    {
      cert := new Certificate(d);
      keep := ValidateCert(TimeOnly, cert.info, Undef, 0, now) == Pass;
    }

    /** The handler merge: every certificate of `other` is added, in order. */
    method Merge(other: CertificateVector)
      requires Valid() && other != certs
      modifies certs
      ensures Valid()
      ensures certs.certs == AddAll(old(certs.certs), other.certs)
    {
      var i := 0;
      while i < |other.certs|
        invariant 0 <= i <= |other.certs|
        invariant certs.certs == AddAll(old(certs.certs), other.certs[..i])
        invariant DistinctSkids(certs.certs)
      {
        certs.Add(other.certs[i]);
        AddAllSnoc(old(certs.certs), other.certs[..i], other.certs[i]);
        assert other.certs[..i + 1] == other.certs[..i] + [other.certs[i]];
        i := i + 1;
      }
      assert other.certs[..|other.certs|] == other.certs;
    }

    /** validate: throws by returning Throw, and on success records the leaf in the cache. */
    method Validate(noVerify: bool, policy: Policy, chain: CertificateVector, params: V, now: int,
                    signs: (X509Data, X509Data) -> bool) returns (outcome: Check)
      modifies this
      ensures (outcome, cache) == ValidateSpec(noVerify, policy, chain.certs, certs.certs, old(cache), params, now, signs)
    {
      if noVerify {
        return Pass;
      }
      if |chain.certs| < 1 {
        return Throw(CertException(Map(map[]), NoCertsInChain));
      }
      var leaf := chain.certs[0];
      var info := leaf.info;
      outcome := CheckHostname(policy, info, params);
      if outcome.Throw? {
        return;
      }
      var skeyid := SubjectKeyIdentifier(leaf.data);
      if skeyid == "" {
        return Throw(CertException(info, EmptySubjectKeyId));
      }
      if skeyid in cache {
        outcome := Pass;
        if policy.time {
          var date := ValidationDate(params, now);
          if date < cache[skeyid].0 || date > cache[skeyid].1 {
            outcome := Throw(ExpirationException(info, date));
          }
        }
        return;
      }
      var window := LeafWindow(info);
      outcome := WalkChain(policy, chain, params, now, signs);
      if outcome == Pass {
        cache := cache[skeyid := window];
      }
    }

    /** The hostname policy of validate, on the leaf's properties. */
    static method CheckHostname(policy: Policy, info: V, params: V) returns (outcome: Check)
      ensures outcome == HostnameCheck(policy, info, params)
    {
      outcome := Pass;
      if policy.hostname {
        if !Has(params, HOSTNAME) {
          return Throw(CertException(info, NoHostname));
        }
        if !Has(info, SUBJECT_NAME) || !Has(Get(info, SUBJECT_NAME), NAME_CN) {
          return Throw(InvalidCertificate(info));
        }
        var host := AsString(Get(params, HOSTNAME));
        var matched := HostnameMatch(host, CommonName(info));
        if !matched {
          return Throw(HostnameException(host, info));
        }
      }
    }

    /** The loop of validate over the chain, with its depth counter. */
    method WalkChain(policy: Policy, chain: CertificateVector, params: V, now: int,
                     signs: (X509Data, X509Data) -> bool) returns (outcome: Check)
      requires |chain.certs| > 0
      ensures outcome == Walk(policy, chain.certs, certs.certs, params, now, signs, 0)
    {
      ghost var c, store := chain.certs, certs.certs;
      var depth := 0;
      while depth < |chain.certs|
        invariant 0 <= depth <= |c| && chain.certs == c && certs.certs == store
        invariant Walk(policy, c, store, params, now, signs, 0) == Walk(policy, c, store, params, now, signs, depth)
        decreases |c| - depth
      {
        var step := CheckAt(policy, chain, params, now, signs, depth);
        WalkUnfold(policy, c, store, params, now, signs, depth);
        if step.Stop? {
          return step.outcome;
        }
        depth := depth + 1;
      }
      if policy.trusted {
        return Throw(TrustException(chain.certs[|chain.certs| - 1].info));
      }
      return Pass;
    }

    /** The body of validate's loop for the certificate at `depth`. */
    method CheckAt(policy: Policy, chain: CertificateVector, params: V, now: int,
                   signs: (X509Data, X509Data) -> bool, depth: nat) returns (step: Step)
      requires depth < |chain.certs|
      ensures step == WalkStep(policy, chain.certs, certs.certs, params, now, signs, depth)
    {
      var current := chain.certs[depth];
      if depth > 0 && !signs(current.data, chain.certs[depth - 1].data) {
        return Stop(Throw(InvalidSignatureException(chain.certs[depth - 1].info)));
      }
      var check := ValidateCert(LocalPolicy(policy, depth), current.info, params, depth, now);
      if check.Throw? {
        return Stop(check);
      }
      step := LookUp(policy, current, now, signs, depth);
    }

    /** The store search of validate's loop body, for `current` at `depth`. */
    method LookUp(policy: Policy, current: Certificate, now: int, signs: (X509Data, X509Data) -> bool, depth: nat)
      returns (step: Step)
      ensures step == StoreStep(policy, current, certs.certs, now, signs, depth)
    {
      var found := certs.Find(SkidPattern(Get(current.info, SUBJECT_KEY_IDENTIFIER)));
      if found < |certs.certs| {
        return Stop(Pass);
      }
      found := certs.Find(IssuerSearch(current.info));
      if found < |certs.certs| {
        var ca := certs.certs[found];
        var caCheck := ValidateCert(StoreCertPolicy(policy), ca.info, Undef, depth, now);
        if caCheck.Throw? {
          return Stop(caCheck);
        }
        if !signs(ca.data, current.data) {
          return Stop(Throw(InvalidSignatureException(current.info)));
        }
        return Stop(Pass);
      }
      return Continue;
    }
  }
}
