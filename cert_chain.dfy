/**
 * LLBasicCertificateChain's constructor: the leaf first, then, while the
 * untrusted pool still holds the certificate named as issuer by the last
 * one taken, that certificate, moved from the pool to the chain.
 */
module CertChain {
  import opened LLSD
  import opened CertFields
  import opened CertVector

  /** `parent` is named as issuer of `child`: its subject-name string is the child's issuer-name string. */
  predicate IssuedBy(child: Certificate, parent: Certificate)
  {
    Has(parent.info, SUBJECT_NAME_STRING) && Get(parent.info, SUBJECT_NAME_STRING) == Get(child.info, ISSUER_NAME_STRING)
  }

  /** For certificates built from decoded data, that is equality of the two one-line names. */
  lemma IssuedByNames(child: Certificate, parent: Certificate)
    requires child.info == InitLLSD(child.data) && parent.info == InitLLSD(parent.data)
    ensures IssuedBy(child, parent) <==> parent.data.subjectString == child.data.issuerString
  {
    InitLLSDSubject(parent.data);
    InitLLSDIssuer(child.data);
  }

  /** Each certificate after the first is named as issuer by the one before it. */
  predicate IssuerLinked(s: seq<Certificate>)
  {
    forall i | 0 < i < |s| :: IssuedBy(s[i - 1], s[i])
  }

  function Last(leaf: Certificate, taken: seq<Certificate>): Certificate
  {
    if taken == [] then leaf else taken[|taken| - 1]
  }

  /** The issuer search pattern of the chain builder. */
  function IssuerPattern(c: Certificate): V
  {
    Map(map[SUBJECT_NAME_STRING := Get(c.info, ISSUER_NAME_STRING)])
  }

  /** A pool certificate matches the issuer search exactly when it is named as the issuer. */
  lemma IssuerPatternMatches(c: Certificate, p: Certificate)
    ensures Matches(p.info, IssuerPattern(c)) <==> IssuedBy(c, p)
  {
    ValueCompareIsEquality(Get(p.info, SUBJECT_NAME_STRING), Get(c.info, ISSUER_NAME_STRING));
    assert SUBJECT_NAME_STRING in IssuerPattern(c).m;
  }

  /** A certificate wrapped around decoded data; the chain only needs its key identifier to be set. */
  method NewCert(d: X509Data) returns (c: Certificate)
    ensures fresh(c) && c.data == d && Has(c.info, SUBJECT_KEY_IDENTIFIER)
  {
    c := new Certificate(d);
  }

  /** The untrusted certificates, each wrapped and added in order (so de-duplicated). */
  method NewPool(untrusted: seq<X509Data>) returns (pool: CertificateVector, ghost made: seq<Certificate>)
    ensures fresh(pool)
    ensures |made| == |untrusted| && forall j | 0 <= j < |made| :: made[j].data == untrusted[j]
    ensures pool.certs == AddAll([], made)
  {
    pool := new CertificateVector();
    made := [];
    var i := 0;
    while i < |untrusted|
      invariant 0 <= i <= |untrusted| && |made| == i
      invariant forall j | 0 <= j < i :: made[j].data == untrusted[j]
      invariant pool.certs == AddAll([], made)
      invariant fresh(pool)
    {
      var cert := new Certificate(untrusted[i]);
      pool.Add(cert);
      AddAllSnoc([], made, cert);
      made := made + [cert];
      i := i + 1;
    }
  }

  /**
   * The chain constructor.  `leaf` is None for a missing store context or
   * leaf, which leaves the chain empty.  The ghost results name the pool
   * (the untrusted certificates after de-duplication), the certificates
   * taken from it in order, and what remained.
   */
  method BuildChain(leaf: Option<X509Data>, untrusted: seq<X509Data>)
    returns (chain: CertificateVector, ghost pool: seq<Certificate>, ghost taken: seq<Certificate>,
             ghost rest: seq<Certificate>)
    ensures fresh(chain)
    ensures leaf.None? ==> chain.certs == []
    ensures leaf.Some? ==>
      && |chain.certs| >= 1 && chain.certs[0].data == leaf.value
      && chain.certs == AddAll([chain.certs[0]], taken)
      && IssuerLinked([chain.certs[0]] + taken)
      && multiset(taken) + multiset(rest) == multiset(pool)
      && (forall p | p in rest :: !IssuedBy(Last(chain.certs[0], taken), p))
      && |chain.certs| <= 1 + |untrusted|
    ensures DistinctSkids(pool) && |pool| <= |untrusted|
    ensures forall p | p in pool :: p.data in untrusted
  {
    chain := new CertificateVector();
    pool, taken, rest := [], [], [];
    if leaf.None? {
      return;
    }
    var current := NewCert(leaf.value);
    chain.Add(current);
    ghost var head := current;
    assert chain.certs == [head];

    var untrustedCerts;
    ghost var made;
    untrustedCerts, made := NewPool(untrusted);
    pool := untrustedCerts.certs;
    PoolProperties(made, untrusted, pool);
    taken := TakeIssuers(chain, untrustedCerts, current);
    rest := untrustedCerts.certs;
    AddAllProperties([head], taken);
    assert chain.certs[0] == head;
    assert |taken| <= |pool| by {
      assert |multiset(taken)| <= |multiset(pool)|;
    }
  }

  /**
   * The constructor's loop: while the pool is not empty, move the issuer of
   * the last certificate of the chain from the pool to the chain.
   */
  method TakeIssuers(chain: CertificateVector, untrustedCerts: CertificateVector, head: Certificate)
    returns (ghost taken: seq<Certificate>)
    requires untrustedCerts != chain && chain.certs == [head] && DistinctSkids(untrustedCerts.certs)
    modifies chain, untrustedCerts
    ensures chain.certs == AddAll([head], taken)
    ensures IssuerLinked([head] + taken)
    ensures multiset(taken) + multiset(untrustedCerts.certs) == multiset(old(untrustedCerts.certs))
    ensures forall p | p in untrustedCerts.certs :: !IssuedBy(Last(head, taken), p)
  {
    ghost var pool := untrustedCerts.certs;
    var current := head;
    taken := [];
    while |untrustedCerts.certs| > 0
      invariant chain.certs == AddAll([head], taken)
      invariant IssuerLinked([head] + taken) && current == Last(head, taken)
      invariant multiset(taken) + multiset(untrustedCerts.certs) == multiset(pool)
      invariant DistinctSkids(untrustedCerts.certs)
      decreases |untrustedCerts.certs|
    {
      ghost var before := untrustedCerts.certs;
      var next, k := TakeIssuer(untrustedCerts, current);
      if next == null {
        return;
      }
      TakeStep(head, taken, before, k, pool);
      chain.Add(next);
      AddAllSnoc([head], taken, next);
      taken := taken + [next];
      current := next;
    }
  }

  /**
   * One step of the constructor's loop: search the pool for the issuer of
   * `current` and, when found, erase it from the pool and return it.
   */
  method TakeIssuer(pool: CertificateVector, current: Certificate) returns (next: Certificate?, ghost k: nat)
    requires DistinctSkids(pool.certs)
    modifies pool
    ensures DistinctSkids(pool.certs)
    ensures next == null ==> pool.certs == old(pool.certs) && forall p | p in pool.certs :: !IssuedBy(current, p)
    ensures next != null ==>
      && k < |old(pool.certs)| && next == old(pool.certs)[k] && IssuedBy(current, next)
      && pool.certs == old(pool.certs)[..k] + old(pool.certs)[k + 1..]
  {
    var issuer := pool.Find(IssuerPattern(current));
    k := issuer;
    if issuer != |pool.certs| {
      IssuerPatternMatches(current, pool.certs[issuer]);
      next := pool.Erase(issuer);
    } else {
      NoIssuerLeft(current, pool.certs);
      next := null;
    }
  }

  lemma PoolProperties(made: seq<Certificate>, untrusted: seq<X509Data>, pool: seq<Certificate>)
    requires |made| == |untrusted| && forall j | 0 <= j < |made| :: made[j].data == untrusted[j]
    requires pool == AddAll([], made)
    ensures DistinctSkids(pool) && |pool| <= |untrusted|
    ensures forall p | p in pool :: p.data in untrusted
  {
    AddAllProperties([], made);
    AddAllElements([], made);
    forall p | p in pool ensures p.data in untrusted {
      var j :| 0 <= j < |made| && made[j] == p;
    }
  }

  /** Moving the issuer found at `k` from the pool to the end of the taken list. */
  lemma TakeStep(head: Certificate, taken: seq<Certificate>, before: seq<Certificate>, k: nat, pool: seq<Certificate>)
    requires k < |before|
    requires multiset(taken) + multiset(before) == multiset(pool)
    requires IssuerLinked([head] + taken) && IssuedBy(Last(head, taken), before[k])
    ensures multiset(taken + [before[k]]) + multiset(before[..k] + before[k + 1..]) == multiset(pool)
    ensures IssuerLinked([head] + (taken + [before[k]]))
    ensures Last(head, taken + [before[k]]) == before[k]
  {
    assert before == before[..k] + [before[k]] + before[k + 1..];
    var s := [head] + taken;
    assert s[|s| - 1] == Last(head, taken);
    assert [head] + (taken + [before[k]]) == s + [before[k]];
  }

  lemma NoIssuerLeft(current: Certificate, rest: seq<Certificate>)
    requires FirstMatch(rest, IssuerPattern(current)) == |rest|
    ensures forall p | p in rest :: !IssuedBy(current, p)
  {
    forall p | p in rest ensures !IssuedBy(current, p) {
      var j :| 0 <= j < |rest| && rest[j] == p;
      IssuerPatternMatches(current, p);
    }
  }

  /**
   * When the leaf and the pool carry distinct subject key identifiers the
   * chain is exactly the leaf followed by the taken certificates, so every
   * certificate in it is the issuer of the one before.
   */
  lemma ChainIsLinkedWhenDistinct(head: Certificate, taken: seq<Certificate>)
    requires IssuerLinked([head] + taken)
    requires DistinctSkids([head] + taken)
    ensures AddAll([head], taken) == [head] + taken
    ensures IssuerLinked(AddAll([head], taken))
  {
    AddAllOfDistinct([head], taken);
  }
}
