/**
 * LLBasicCertificateVector: an ordered list of certificates searched by
 * property-map patterns and kept free of duplicate subject key identifiers
 * by its insert operation.
 */
module CertVector {
  import opened LLSD
  import opened CertFields

  /** The subject-key-id entry of a certificate's property map. */
  function Skid(c: Certificate): V
  {
    Get(c.info, SUBJECT_KEY_IDENTIFIER)
  }

  /**
   * find's per-certificate test: every pattern key is present in the map and
   * its value compares equal.  A pattern that is not a map has no keys.
   */
  predicate Matches(info: V, pattern: V)
  {
    pattern.Map? ==> forall k | k in pattern.m :: Has(info, k) && ValueCompare(Get(info, k), pattern.m[k])
  }

  /** Matching is sub-map inclusion with structural equality. */
  lemma MatchesIsSubmap(info: V, pattern: V)
    ensures Matches(info, pattern) <==>
      (pattern.Map? ==> forall k | k in pattern.m :: info.Map? && k in info.m && info.m[k] == pattern.m[k])
  {
    ValueCompareIsEqualityAll();
  }

  /** Every certificate matches the empty pattern. */
  lemma MatchesEmpty(info: V)
    ensures Matches(info, Map(map[]))
  {
  }

  /** The position find lands on: the first match, or the end when nothing matches. */
  function FirstMatch(certs: seq<Certificate>, pattern: V): (i: nat)
    ensures i <= |certs|
    ensures i < |certs| ==> Matches(certs[i].info, pattern)
    ensures forall j | 0 <= j < i :: !Matches(certs[j].info, pattern)
  {
    if |certs| == 0 then 0
    else if Matches(certs[0].info, pattern) then 0
    else 1 + FirstMatch(certs[1..], pattern)
  }

  /** An empty pattern finds the first certificate of a non-empty list. */
  lemma FirstMatchEmptyPattern(certs: seq<Certificate>)
    ensures FirstMatch(certs, Map(map[])) == 0
  {
  }

  /** The pattern insert searches with: just the subject key identifier. */
  function SkidPattern(id: V): V
  {
    Map(map[SUBJECT_KEY_IDENTIFIER := id])
  }

  /** Some certificate carries the subject-key-id entry with this value. */
  predicate ContainsSkid(certs: seq<Certificate>, id: V)
  {
    exists j | 0 <= j < |certs| :: Has(certs[j].info, SUBJECT_KEY_IDENTIFIER) && Skid(certs[j]) == id
  }

  /** Searching by subject key identifier finds something exactly when some certificate carries it. */
  lemma FirstMatchSkid(certs: seq<Certificate>, id: V)
    ensures FirstMatch(certs, SkidPattern(id)) < |certs| <==> ContainsSkid(certs, id)
    ensures FirstMatch(certs, SkidPattern(id)) < |certs| ==> Skid(certs[FirstMatch(certs, SkidPattern(id))]) == id
  {
    ValueCompareIsEqualityAll();
    var p := SkidPattern(id);
    forall j | 0 <= j < |certs|
      ensures Matches(certs[j].info, p) <==> Has(certs[j].info, SUBJECT_KEY_IDENTIFIER) && Skid(certs[j]) == id
    {
      assert SUBJECT_KEY_IDENTIFIER in p.m;
    }
  }

  /** No two elements share a key. */
  predicate DistinctBy<T>(s: seq<T>, key: T -> V)
  {
    forall i, j | 0 <= i < j < |s| :: key(s[i]) != key(s[j])
  }

  /** The vector's invariant: every certificate has a subject key identifier and no two share one. */
  predicate DistinctSkids(certs: seq<Certificate>)
  {
    (forall i | 0 <= i < |certs| :: Has(certs[i].info, SUBJECT_KEY_IDENTIFIER)) && DistinctBy(certs, Skid)
  }

  /** add: insert at the end unless the identifier is missing or already present. */
  function AddOne(certs: seq<Certificate>, c: Certificate): seq<Certificate>
  {
    if !Has(c.info, SUBJECT_KEY_IDENTIFIER) || ContainsSkid(certs, Skid(c)) then certs else certs + [c]
  }

  /** A sequence of adds. */
  function AddAll(certs: seq<Certificate>, cs: seq<Certificate>): seq<Certificate>
    decreases |cs|
  {
    if cs == [] then certs else AddAll(AddOne(certs, cs[0]), cs[1..])
  }

  lemma AddOnePreserves(certs: seq<Certificate>, c: Certificate)
    requires DistinctSkids(certs)
    ensures DistinctSkids(AddOne(certs, c))
    ensures Has(c.info, SUBJECT_KEY_IDENTIFIER) ==> ContainsSkid(AddOne(certs, c), Skid(c))
  {
    if Has(c.info, SUBJECT_KEY_IDENTIFIER) && !ContainsSkid(certs, Skid(c)) {
      assert (certs + [c])[|certs|] == c;
    }
  }

  /**
   * Adding keeps the identifiers distinct, never drops what was there, and
   * leaves every added identifier present.
   */
  lemma {:induction false} AddAllProperties(certs: seq<Certificate>, cs: seq<Certificate>)
    requires DistinctSkids(certs)
    ensures DistinctSkids(AddAll(certs, cs))
    ensures certs <= AddAll(certs, cs)
    ensures forall c | c in cs && Has(c.info, SUBJECT_KEY_IDENTIFIER) :: ContainsSkid(AddAll(certs, cs), Skid(c))
    ensures |AddAll(certs, cs)| <= |certs| + |cs|
    decreases |cs|
  {
    if cs != [] {
      var next := AddOne(certs, cs[0]);
      AddOnePreserves(certs, cs[0]);
      AddAllProperties(next, cs[1..]);
      var r := AddAll(certs, cs);
      if Has(cs[0].info, SUBJECT_KEY_IDENTIFIER) {
        var j :| 0 <= j < |next| && Has(next[j].info, SUBJECT_KEY_IDENTIFIER) && Skid(next[j]) == Skid(cs[0]);
        assert r[j] == next[j];
      }
      assert forall c | c in cs :: c == cs[0] || c in cs[1..];
    }
  }

  /** When nothing collides, adding is plain concatenation. */
  lemma {:induction false} AddAllOfDistinct(certs: seq<Certificate>, cs: seq<Certificate>)
    requires DistinctSkids(certs + cs)
    ensures AddAll(certs, cs) == certs + cs
    decreases |cs|
  {
    if cs == [] {
      assert certs + cs == certs;
    } else {
      forall j | 0 <= j < |certs| ensures Skid(certs[j]) != Skid(cs[0]) {
        assert (certs + cs)[j] == certs[j] && (certs + cs)[|certs|] == cs[0];
      }
      assert certs + [cs[0]] + cs[1..] == certs + cs;
      AddAllOfDistinct(certs + [cs[0]], cs[1..]);
    }
  }

  lemma AddAllSnoc(certs: seq<Certificate>, cs: seq<Certificate>, c: Certificate)
    ensures AddAll(certs, cs + [c]) == AddOne(AddAll(certs, cs), c)
    decreases |cs|
  {
    if cs == [] {
      assert [c][1..] == [];
    } else {
      assert (cs + [c])[1..] == cs[1..] + [c];
      AddAllSnoc(AddOne(certs, cs[0]), cs[1..], c);
    }
  }

  lemma {:induction false} AddAllElements(certs: seq<Certificate>, cs: seq<Certificate>)
    ensures forall c | c in AddAll(certs, cs) :: c in certs || c in cs
    ensures |AddAll(certs, cs)| <= |certs| + |cs|
    decreases |cs|
  {
    if cs != [] {
      AddAllElements(AddOne(certs, cs[0]), cs[1..]);
    }
  }

  class CertificateVector {
    var certs: seq<Certificate>

    constructor ()
      ensures certs == []
    {
      certs := [];
    }

    function Size(): nat
      reads this
    {
      |certs|
    }

    /** find: the first certificate whose property map matches every pattern entry. */
    method Find(pattern: V) returns (index: nat)
      ensures index == FirstMatch(certs, pattern)
      ensures index < |certs| ==> Matches(certs[index].info, pattern)
    {
      var found := false;
      index := 0;
      while !found && index < |certs|
        invariant 0 <= index <= |certs|
        invariant forall j | 0 <= j < index :: !Matches(certs[j].info, pattern)
        invariant found ==> index < |certs| && Matches(certs[index].info, pattern)
        decreases |certs| - index, if found then 0 else 1
      {
        found := MatchesAll(certs[index].info, pattern);
        if !found {
          index := index + 1;
        }
      }
      FirstMatchUnique(certs, pattern, index);
    }

    /**
     * insert: place the certificate at `pos` unless its identifier is
     * missing or already present, in which case nothing changes.
     */
    method Insert(pos: nat, cert: Certificate)
      requires pos <= |certs|
      modifies this
      ensures !Has(cert.info, SUBJECT_KEY_IDENTIFIER) || ContainsSkid(old(certs), Skid(cert)) ==>
        certs == old(certs)
      ensures Has(cert.info, SUBJECT_KEY_IDENTIFIER) && !ContainsSkid(old(certs), Skid(cert)) ==>
        certs == old(certs)[..pos] + [cert] + old(certs)[pos..]
      ensures DistinctSkids(old(certs)) ==> DistinctSkids(certs)
    {
      var info := cert.info;
      if info.Map? && Has(info, SUBJECT_KEY_IDENTIFIER) {
        var existing := SkidPattern(Get(info, SUBJECT_KEY_IDENTIFIER));
        var at := Find(existing);
        FirstMatchSkid(certs, Skid(cert));
        if at == |certs| {
          ghost var before := certs;
          certs := certs[..pos] + [cert] + certs[pos..];
          InsertPreservesDistinct(before, pos, cert);
        }
      }
    }

    /** add: insert at the end. */
    method Add(cert: Certificate)
      modifies this
      ensures certs == AddOne(old(certs), cert)
      ensures DistinctSkids(old(certs)) ==> DistinctSkids(certs)
    {
      Insert(|certs|, cert);
      assert old(certs)[..|old(certs)|] == old(certs);
    }

    /** erase: remove the certificate at `pos` and hand it back; at the end nothing happens and null comes back. */
    method Erase(pos: nat) returns (removed: Certificate?)
      requires pos <= |certs|
      modifies this
      ensures pos == |old(certs)| ==> removed == null && certs == old(certs)
      ensures pos < |old(certs)| ==> removed == old(certs)[pos] && certs == old(certs)[..pos] + old(certs)[pos + 1..]
      ensures DistinctSkids(old(certs)) ==> DistinctSkids(certs)
    {
      if pos != |certs| {
        removed := certs[pos];
        ghost var before := certs;
        certs := certs[..pos] + certs[pos + 1..];
        ErasePreservesDistinct(before, pos);
      } else {
        removed := null;
      }
    }
  }

  /** find's inner loop: walk the pattern's entries until one is missing or differs. */
  method MatchesAll(info: V, pattern: V) returns (found: bool)
    ensures found == Matches(info, pattern)
  {
    found := true;
    if pattern.Map? {
      var remaining := pattern.m.Keys;
      while found && remaining != {}
        invariant remaining <= pattern.m.Keys
        invariant found ==> forall k | k in pattern.m.Keys - remaining ::
          Has(info, k) && ValueCompare(Get(info, k), pattern.m[k])
        invariant !found ==> !Matches(info, pattern)
        decreases |remaining|
      {
        var key :| key in remaining;
        if !Has(info, key) || !ValueCompare(Get(info, key), pattern.m[key]) {
          found := false;
        }
        remaining := remaining - {key};
      }
    }
  }

  lemma FirstMatchUnique(certs: seq<Certificate>, pattern: V, i: nat)
    requires i <= |certs|
    requires i < |certs| ==> Matches(certs[i].info, pattern)
    requires forall j | 0 <= j < i :: !Matches(certs[j].info, pattern)
    ensures i == FirstMatch(certs, pattern)
  {
  }

  predicate HasSkid(c: Certificate)
  {
    Has(c.info, SUBJECT_KEY_IDENTIFIER)
  }

  lemma InsertPreservesDistinct(certs: seq<Certificate>, pos: nat, c: Certificate)
    requires pos <= |certs|
    requires Has(c.info, SUBJECT_KEY_IDENTIFIER) && !ContainsSkid(certs, Skid(c))
    ensures DistinctSkids(certs) ==> DistinctSkids(certs[..pos] + [c] + certs[pos..])
  {
    if DistinctSkids(certs) {
      InsertKeepsDistinct(certs, pos, c, Skid, HasSkid);
    }
  }

  lemma ErasePreservesDistinct(certs: seq<Certificate>, pos: nat)
    requires pos < |certs|
    ensures DistinctSkids(certs) ==> DistinctSkids(certs[..pos] + certs[pos + 1..])
  {
    if DistinctSkids(certs) {
      EraseKeepsDistinct(certs, pos, Skid, HasSkid);
    }
  }

  lemma InsertKeepsDistinct<T>(s: seq<T>, pos: nat, x: T, key: T -> V, ok: T -> bool)
    requires pos <= |s| && DistinctBy(s, key) && ok(x)
    requires forall j | 0 <= j < |s| :: key(s[j]) != key(x) && ok(s[j])
    ensures DistinctBy(s[..pos] + [x] + s[pos..], key)
    ensures var r := s[..pos] + [x] + s[pos..]; forall j | 0 <= j < |r| :: ok(r[j])
  {
    var r := s[..pos] + [x] + s[pos..];
    forall i | 0 <= i < |r| ensures r[i] == (if i < pos then s[i] else if i == pos then x else s[i - 1]) {
    }
    forall i, j | 0 <= i < j < |r| ensures key(r[i]) != key(r[j]) {
      if i == pos {
        assert r[j] == s[j - 1];
      } else if j == pos {
        assert r[i] == s[i];
      } else {
        var oi := if i < pos then i else i - 1;
        var oj := if j < pos then j else j - 1;
        assert r[i] == s[oi] && r[j] == s[oj];
      }
    }
  }

  lemma EraseKeepsDistinct<T>(s: seq<T>, pos: nat, key: T -> V, ok: T -> bool)
    requires pos < |s| && DistinctBy(s, key)
    requires forall j | 0 <= j < |s| :: ok(s[j])
    ensures DistinctBy(s[..pos] + s[pos + 1..], key)
    ensures var r := s[..pos] + s[pos + 1..]; forall j | 0 <= j < |r| :: ok(r[j])
  {
    var r := s[..pos] + s[pos + 1..];
    forall i | 0 <= i < |r| ensures r[i] == s[if i < pos then i else i + 1] {
    }
    forall i, j | 0 <= i < j < |r| ensures key(r[i]) != key(r[j]) {
      var oi := if i < pos then i else i + 1;
      var oj := if j < pos then j else j + 1;
      assert r[i] == s[oi] && r[j] == s[oj];
    }
  }
}
