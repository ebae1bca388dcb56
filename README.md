# A verified model of the Alchemy viewer's certificate trust engine

This project models, in Dafny, four parts of the Alchemy Second Life
viewer:

- **The basic certificate store** of `llsecapicerthandler.cpp`. This is the main part. It covers:
  - the property map (LLSD) built for a decoded X.509 certificate;
  - the structural LLSD comparison;
  - the certificate vector, with find, insert and erase;
  - the chain builder, which orders an untrusted pool leaf first;
  - the label-wise wildcard hostname matcher;
  - the per-certificate policy checks;
  - `LLBasicCertificateStore::validate`, with its chain walk and its cache of validated leaf certificates.
- **The message-log filter** of `llfloatermessagelog.cpp`. This covers the filter string's positive and `!`-negative name lists, the keep/drop rule, the bounded raw log, and the numeric column comparison.
- **Translation response handling** of `lltranslate.cpp`. This covers:
  - Bing's string extraction;
  - Google's JSON response, over an abstract JSON value;
  - the HTML-entity fix-up;
  - the request URLs, the language-code mapping and service selection.
- **The uniform value cache** of `llglslshader.h`. Each (location, value) pair is kept so that a setter can skip an unchanged upload; the upload decision of the setters is modelled too.

One Dafny module is given per component:

| Module | Contents |
|---|---|
| `LLSD` | The LLSD value, `asString` and the comparison |
| `CertFields` | The property map and the memoised certificate |
| `CertVector` | The certificate vector |
| `CertChain` | The chain builder |
| `Hostname` | The wildcard matchers |
| `CertValidate` | `_validateCert` |
| `CertStore` | The store, `validate` and the handler merge |
| `MessageLog` | The message-log filter |
| `Translate` | Translation response handling |
| `ShaderUniforms` | The uniform value cache |

Code that updates state in place is modelled as classes with `modifies` frames:
- the certificate's memoised property map;
- the certificate vector;
- the chain constructor's loop;
- the store and its cache;
- the filter's name lists;
- the floater's log;
- the uniform caches.

Each such method is proved against a function of the old state, and the properties are proved as lemmas about those functions. Pure code is modelled as functions:
- the comparisons, the matchers and `_validateCert`;
- the translation parsers and the fix-up.

OpenSSL is not modelled. A certificate is its decoded X.509 facts (`CertFields.X509Data`), and the signature check is the function parameter `signs(parent, child)`. The current time is the parameter `now`, and the `NoVerifySSLCert` setting is the parameter `noVerify`. The header `llsecapi.h` is not part of this model. The property-map keys are string constants, and the validation policy is a record of booleans, one per policy bit.

Where the code departs from the standards, the model follows the code:
- A pathLenConstraint of 0 means "no limit" here. Section 4.2.1.9 of RFC 5280 says it allows no further intermediate certificates. See `CertValidate.PathLenZeroIsNoLimit`.
- A CN reduced to a bare `*` matches any number of remaining hostname labels. Section 6.4.3 of RFC 6125 allows one label only. See `Hostname.WildcardSpansLabels`.
- All comparisons are case-sensitive.

## Model

| member | source | states |
|---|---|---|
| LLSD.NatToStringInjective | indra/newview/llsecapicerthandler.cpp:56-116 | Distinct naturals have distinct decimal forms, so comparing integers by string form is comparing them by value |
| LLSD.IntToStringInjective | indra/newview/llsecapicerthandler.cpp:56-116 | Distinct integers, negative ones included, have distinct string forms |
| LLSD.ValueCompareIsEquality | indra/newview/llsecapicerthandler.cpp:56-116 | valueCompareLLSD holds exactly when the two values are structurally equal, in both directions. A type mismatch is false; maps need the same keys and equal values; arrays need equal length and equal elements; scalars compare by string form |
| LLSD.ValueCompareIsEqualityAll | indra/newview/llsecapicerthandler.cpp:56-116 | The same, for all pairs of values at once |
| LLSD.ValueCompareReflexive | indra/newview/llsecapicerthandler.cpp:56-116 | Every value compares equal to itself |
| LLSD.ValueCompareSymmetric | indra/newview/llsecapicerthandler.cpp:56-116 | The comparison gives the same answer with its arguments swapped |
| LLSD.ArrayIncludesValue | indra/newview/llsecapicerthandler.cpp:915-927 | _LLSDArrayIncludesValue is true exactly when the value is an array holding an element equal to the one sought |
| LLSD.AsInteger | indra/newview/llfloatermessagelog.cpp:869-870 | asInteger reads a string cell as the number it spells, and an integer as itself |
| LLSD.ParseNatToString | indra/newview/llfloatermessagelog.cpp:579-581 | The decimal string of a natural number reads back as that number |
| LLSD.ParseIntToString | indra/newview/llfloatermessagelog.cpp:579-581 | The string form of any integer, negative ones included, reads back as that integer |
| LLSD.Get | indra/newview/llsecapicerthandler.cpp:56-116 | A missing key reads as undefined |
| CertFields.HexByte | indra/newview/llsecapicerthandler.cpp:461-475 | One byte is written as exactly two hexadecimal digits |
| CertFields.OctetHex | indra/newview/llsecapicerthandler.cpp:461-475 | n bytes are written as 3n-1 characters: the two-digit groups joined by colons |
| CertFields.ParseHexByteInverse | indra/newview/llsecapicerthandler.cpp:461-475 | Reading two digits back gives the byte written |
| CertFields.OctetHexRoundTrip | indra/newview/llsecapicerthandler.cpp:461-475 | Parsing the colon-separated hex string returns the original bytes |
| CertFields.OctetHexInjective | indra/newview/llsecapicerthandler.cpp:461-475 | Distinct octet strings give distinct hex strings |
| CertFields.CertStringFromOctetString | indra/newview/llsecapicerthandler.cpp:461-475 | The loop produces the colon-separated hex string, and the bytes can be read back from it |
| CertFields.Asn1IntegerGet | indra/newview/llsecapicerthandler.cpp:264-267 | ASN1_INTEGER_get gives a non-negative path length unchanged when it fits in a 64-bit long, and -1 when it does not |
| CertFields.ToInt32 | indra/newview/llsecapicerthandler.cpp:264-267 | The static_cast<int> of the long: the result lies in the signed 32-bit range, and an in-range value is kept as it is |
| CertFields.BasicConstraintsExt | indra/newview/llsecapicerthandler.cpp:243-272 | The extension absent gives undefined. Otherwise the map holds the CA flag, and a path length exactly when one is given. That path length is 0 when it is negative or the certificate is not a CA. For a CA it is the value itself below 2^31, its 32-bit truncation up to the largest long, and -1 beyond that |
| CertFields.KeyUsageRankOfEntry | indra/newview/llsecapicerthandler.cpp:276-308 | Each key-usage name ranks at its own position in the fixed table, so the order stated by the other key-usage members is the table order |
| CertFields.UsageNamesFrom | indra/newview/llsecapicerthandler.cpp:276-308 | From a table position on, exactly the names whose bit is set are produced, in table order |
| CertFields.KeyUsageExt | indra/newview/llsecapicerthandler.cpp:276-308 | The extension absent gives undefined. Each key-usage name is present exactly when its bit is set, in the fixed order; usage 0 gives an empty array |
| CertFields.KnownNames | indra/newview/llsecapicerthandler.cpp:311-337 | A name is listed exactly when some object of the extension has it as its short name |
| CertFields.Reverse | indra/newview/llsecapicerthandler.cpp:311-337 | Reversal keeps the length and reverses the positions |
| CertFields.ExtKeyUsageNames | indra/newview/llsecapicerthandler.cpp:311-337 | A name is listed exactly when the extended key usage holds an object with that name |
| CertFields.ExtKeyUsageExt | indra/newview/llsecapicerthandler.cpp:311-337 | The extension absent gives undefined. Otherwise the pop loop builds the array of the objects' known names |
| CertFields.KnownNamesAppend | indra/newview/llsecapicerthandler.cpp:311-337 | The known names of two lists joined are those of each list, joined |
| CertFields.ReverseAppend | indra/newview/llsecapicerthandler.cpp:311-337 | Reversing two joined lists is joining their reversals the other way round |
| CertFields.KnownNamesSnoc | indra/newview/llsecapicerthandler.cpp:311-337 | Pushing one more object puts its name, if it has one, first in the popped order |
| CertFields.NameMap | indra/newview/llsecapicerthandler.cpp:402-436 | The name map has exactly the entries' keys, each holding its entry's value as a string |
| CertFields.SubjectKeyIdentifier | indra/newview/llsecapicerthandler.cpp:340-351 | An absent key identifier gives the empty string; otherwise parsing the string gives the key identifier's bytes back |
| CertFields.AuthorityKeyIdExt | indra/newview/llsecapicerthandler.cpp:354-377 | The extension absent gives undefined. Otherwise the map holds the key id exactly when it is present, as colon-separated hex, and the serial exactly when it is present |
| CertFields.InitLLSD | indra/newview/llsecapicerthandler.cpp:217-240 | The property map is a map that always holds the subject key id, possibly the empty string |
| CertFields.WithExtensionsKeeps | indra/newview/llsecapicerthandler.cpp:217-240 | Adding the extension keys leaves the name, serial and validity keys as they were |
| CertFields.InitLLSDSubject | indra/newview/llsecapicerthandler.cpp:217-240 | The subject name and its string are the certificate's |
| CertFields.InitLLSDIssuer | indra/newview/llsecapicerthandler.cpp:217-240 | The issuer name and its string are the certificate's |
| CertFields.NameEntriesNames | indra/newview/llsecapicerthandler.cpp:217-240 | The name part of the map holds the subject and issuer name maps and their strings |
| CertFields.InitLLSDSerial | indra/newview/llsecapicerthandler.cpp:217-240 | The serial number is present exactly when the certificate has one, and is that serial |
| CertFields.InitLLSDValidity | indra/newview/llsecapicerthandler.cpp:217-240 | The validity period is the certificate's |
| CertFields.InitLLSDConstraints | indra/newview/llsecapicerthandler.cpp:217-240 | The basic-constraints and key-usage keys are always set, holding the decoded extensions, or undefined when an extension is absent |
| CertFields.InitLLSDExtKeyUsage | indra/newview/llsecapicerthandler.cpp:217-240 | The extended-key-usage key is always set: undefined without the extension, otherwise the array of its known names |
| CertFields.InitLLSDAuthorityKeyId | indra/newview/llsecapicerthandler.cpp:217-240 | The authority-key-id key is always set, holding the decoded extension or undefined |
| CertFields.Certificate.constructor | indra/newview/llsecapicerthandler.cpp:217-240 | A new certificate holds its data and the property map of that data, not yet memoised |
| CertFields.Certificate.GetLLSD | indra/newview/llsecapicerthandler.cpp:207-213 | getLLSD builds the property map once and then returns the memoised map, which is always the map of the certificate's data |
| CertVector.MatchesIsSubmap | indra/newview/llsecapicerthandler.cpp:544-573 | A certificate matches a pattern exactly when its map has every pattern key with an equal value |
| CertVector.MatchesEmpty | indra/newview/llsecapicerthandler.cpp:544-573 | Every certificate matches the empty pattern |
| CertVector.FirstMatch | indra/newview/llsecapicerthandler.cpp:544-573 | The position found is a match with no match before it, or the end when there is none |
| CertVector.FirstMatchEmptyPattern | indra/newview/llsecapicerthandler.cpp:544-573 | An empty pattern finds the first certificate of a non-empty vector |
| CertVector.FirstMatchSkid | indra/newview/llsecapicerthandler.cpp:544-573 | A search by subject key id finds something exactly when some certificate carries that id, and what it finds carries it |
| CertVector.FirstMatchUnique | indra/newview/llsecapicerthandler.cpp:544-573 | With distinct ids, a search by id finds the one certificate carrying it |
| CertVector.MatchesAll | indra/newview/llsecapicerthandler.cpp:544-573 | The inner loop over the pattern's keys decides a match |
| CertVector.AddOnePreserves | indra/newview/llsecapicerthandler.cpp:577-613 | Adding one certificate keeps the ids distinct |
| CertVector.AddAllProperties | indra/newview/llsecapicerthandler.cpp:577-613 | Adding many certificates keeps the ids distinct, keeps the old ones as a prefix, leaves every given id present and grows by at most the number given |
| CertVector.AddAllOfDistinct | indra/newview/llsecapicerthandler.cpp:577-613 | Adding certificates whose ids are new and distinct appends them all |
| CertVector.AddAllSnoc | indra/newview/llsecapicerthandler.cpp:577-613 | Adding one more certificate after a list is one more insertion |
| CertVector.AddAllElements | indra/newview/llsecapicerthandler.cpp:577-613 | After adding many certificates, each one held was held before or was given |
| CertVector.CertificateVector.Find | indra/newview/llsecapicerthandler.cpp:544-573 | find returns the position of the first match, or the end |
| CertVector.CertificateVector.Insert | indra/newview/llsecapicerthandler.cpp:577-613 | A certificate without the id key, or with an id already present, changes nothing. Otherwise it is spliced in at the position. The ids stay distinct |
| CertVector.CertificateVector.Add | indra/newview/llsecapicerthandler.cpp:577-613 | add inserts at the end, with the same de-duplication |
| CertVector.CertificateVector.Erase | indra/newview/llsecapicerthandler.cpp:616-627 | erase(end()) returns null and changes nothing. Otherwise it removes exactly that element and returns it |
| CertVector.InsertPreservesDistinct | indra/newview/llsecapicerthandler.cpp:577-613 | Insertion keeps the subject key ids distinct |
| CertVector.ErasePreservesDistinct | indra/newview/llsecapicerthandler.cpp:616-627 | Removal keeps the subject key ids distinct |
| CertVector.InsertKeepsDistinct | indra/newview/llsecapicerthandler.cpp:577-613 | The sequence the insertion produces has distinct ids |
| CertVector.EraseKeepsDistinct | indra/newview/llsecapicerthandler.cpp:616-627 | The sequence the removal produces has distinct ids |
| CertChain.IssuedByNames | indra/newview/llsecapicerthandler.cpp:739-790 | The issuer test holds exactly when the candidate's subject-name string equals the child's issuer-name string |
| CertChain.IssuerPatternMatches | indra/newview/llsecapicerthandler.cpp:739-790 | The search pattern the chain builds matches exactly the issuers of the current certificate |
| CertChain.NewPool | indra/newview/llsecapicerthandler.cpp:761-767 | The pool is a new vector of the untrusted certificates, added in order |
| CertChain.BuildChain | indra/newview/llsecapicerthandler.cpp:739-790 | A missing leaf gives an empty chain. Otherwise the chain starts with the leaf and each certificate's issuer follows it. The pool loses exactly the certificates taken, and nothing left in it issued the last one. The chain holds at most one more certificate than the untrusted list, and the pool holds only certificates of that list with distinct ids |
| CertChain.TakeIssuers | indra/newview/llsecapicerthandler.cpp:768-788 | The loop pulls issuers out of the pool, one at a time, each issued by the one before, until none is left |
| CertChain.TakeIssuer | indra/newview/llsecapicerthandler.cpp:768-788 | One iteration finds an issuer of the current certificate in the pool, erases it and returns it; or it returns null and leaves the pool as it was, when no certificate in it is an issuer |
| CertChain.PoolProperties | indra/newview/llsecapicerthandler.cpp:739-790 | The untrusted pool has distinct ids and holds only certificates of the given data |
| CertChain.TakeStep | indra/newview/llsecapicerthandler.cpp:768-788 | Taking one certificate extends the linked chain and moves it out of the pool |
| CertChain.NoIssuerLeft | indra/newview/llsecapicerthandler.cpp:777-787 | When the search finds nothing, no certificate left in the pool issued the current one |
| CertChain.ChainIsLinkedWhenDistinct | indra/newview/llsecapicerthandler.cpp:739-790 | With distinct ids the chain is the leaf followed by the taken certificates, each issued by the one before |
| Hostname.IndexOf | indra/newview/llsecapicerthandler.cpp:801-852 | The first position of a character in the label, or its end |
| Hostname.FindFirstOf | indra/newview/llsecapicerthandler.cpp:801-852 | std::string::find_first_of: the first position holding any character of the set, or none |
| Hostname.SubdomainMatch | indra/newview/llsecapicerthandler.cpp:801-852 | The loop of _cert_subdomain_wildcard_match computes the label-matching function |
| Hostname.SearchAfterStar | indra/newview/llsecapicerthandler.cpp:801-852 | The inner search for the literal after a `*` computes its reference function |
| Hostname.GlobLiteral | indra/newview/llsecapicerthandler.cpp:801-852 | A pattern without `*` matches only the identical label |
| Hostname.GlobLiteralPrefix | indra/newview/llsecapicerthandler.cpp:801-852 | While the pattern has no `*`, a match needs the label to start with the same characters and the rest to match |
| Hostname.SubdomainMatchesIsGlob | indra/newview/llsecapicerthandler.cpp:801-852 | Without `**`, the label match is exactly glob matching; a bare `*` matches every label |
| Hostname.AfterStarIsGlob | indra/newview/llsecapicerthandler.cpp:801-852 | The search after a `*` is exactly glob matching of the rest |
| Hostname.DoubleStarNeverMatches | indra/newview/llsecapicerthandler.cpp:801-852 | As written, a pattern holding `**` matches no label |
| Hostname.SubdomainMatchesLiteral | indra/newview/llsecapicerthandler.cpp:801-852 | A pattern with no `*` matches exactly the identical label |
| Hostname.GlobMissingLiteral | indra/newview/llsecapicerthandler.cpp:801-852 | A pattern `*c...` does not match a label that lacks the character c |
| Hostname.LastDot | indra/newview/llsecapicerthandler.cpp:864-912 | The position of the last `.` of a name, or -1 |
| Hostname.StripTrailingDot | indra/newview/llsecapicerthandler.cpp:864-912 | One trailing `.` is removed, and nothing else changes |
| Hostname.HostnameMatch | indra/newview/llsecapicerthandler.cpp:864-912 | The loop of _cert_hostname_wildcard_match computes the right-to-left label comparison |
| Hostname.LabelsMatchLiteral | indra/newview/llsecapicerthandler.cpp:864-912 | Names without `*` match exactly when they are equal |
| Hostname.HostnameMatchesLiteral | indra/newview/llsecapicerthandler.cpp:864-912 | A literal CN matches exactly the identical hostname, up to one trailing dot on each side |
| Hostname.StarMatchesEveryHost | indra/newview/llsecapicerthandler.cpp:864-912 | The CN `*` matches every hostname |
| Hostname.LabelsMatchSplit | indra/newview/llsecapicerthandler.cpp:864-912 | The labels are compared right to left: the last labels, then the rest |
| Hostname.LabelsMatchCommonSuffix | indra/newview/llsecapicerthandler.cpp:864-912 | A hostname and a CN that share a literal last label match exactly when their remaining labels do |
| Hostname.WildcardSpansLabels | indra/newview/llsecapicerthandler.cpp:902-908 | `*.` followed by a suffix matches any hostname with one or more labels before that suffix, so `a.b.example.com` matches `*.example.com` |
| Hostname.LabelsNotBareSuffix | indra/newview/llsecapicerthandler.cpp:864-912 | A name without `*` does not match `*.` followed by itself |
| Hostname.BareSuffixDoesNotMatch | indra/newview/llsecapicerthandler.cpp:864-912 | `example.com` does not match `*.example.com` |
| CertValidate.ValidateCert | indra/newview/llsecapicerthandler.cpp:929-1016 | A missing subject, issuer, validity or key-id key always fails. Time failures carry the validation date. Key-usage failures come from the SSL or CA policy, and basic-constraints failures only from that policy |
| CertValidate.PolicyChecks | indra/newview/llsecapicerthandler.cpp:957-1015 | Each failure comes from the policy bit whose check fails |
| CertValidate.KeyUsageLacks | indra/newview/llsecapicerthandler.cpp:971-997 | A key usage missing from the property map is exactly its bit not being set |
| CertValidate.ServerAuthLacks | indra/newview/llsecapicerthandler.cpp:982-987 | serverAuth is missing from the map exactly when the extended key usage is present without it |
| CertValidate.ConstraintsOfDecoded | indra/newview/llsecapicerthandler.cpp:1000-1015 | The basic constraints of a decoded certificate read back as its CA flag and its path length |
| CertValidate.RequiredKeysOfDecoded | indra/newview/llsecapicerthandler.cpp:937-955 | A decoded certificate's map has every key the checks require |
| CertValidate.ValidateDecoded | indra/newview/llsecapicerthandler.cpp:929-1016 | For a decoded certificate, _validateCert is its reference definition over the X.509 facts |
| CertValidate.PolicyChecksOfDecoded | indra/newview/llsecapicerthandler.cpp:957-1015 | The policy checks on the map are the checks on the decoded facts |
| CertValidate.DecodedHasNoMissingKeys | indra/newview/llsecapicerthandler.cpp:937-955 | A decoded certificate is never rejected for a missing key |
| CertValidate.TimeWindow | indra/newview/llsecapicerthandler.cpp:957-970 | Under the time policy a certificate passes exactly when validFrom <= date <= validTo |
| CertValidate.SslKeyUsageEmptyFails | indra/newview/llsecapicerthandler.cpp:971-981 | A key usage extension present with no bits fails the SSL key-usage policy |
| CertValidate.SslKeyUsageAbsentPasses | indra/newview/llsecapicerthandler.cpp:971-997 | Without key-usage extensions, both key-usage policies pass |
| CertValidate.PathLenZeroIsNoLimit | indra/newview/llsecapicerthandler.cpp:1009-1014 | A CA with pathLenConstraint 0 passes the basic constraints at every depth |
| CertValidate.PathLenPositive | indra/newview/llsecapicerthandler.cpp:1009-1014 | A positive path length fails exactly at a depth above it |
| CertValidate.NotCaFails | indra/newview/llsecapicerthandler.cpp:1004-1008 | A certificate that is not a CA fails the basic-constraints policy |
| CertStore.HostnameCheck | indra/newview/llsecapicerthandler.cpp:1100-1119 | Without the hostname policy it passes. A hostname failure names the given hostname, which does not match the leaf's CN |
| CertStore.CachedCheck | indra/newview/llsecapicerthandler.cpp:1145-1173 | A cache hit passes exactly when the time policy is off or the date lies in the cached period |
| CertStore.IssuerSearch | indra/newview/llsecapicerthandler.cpp:1229-1245 | The search holds the certificate's issuer-name string as subject-name string. It holds the authority key id as subject key id, and the authority serial as serial number, each exactly when the certificate's authority key identifier gives it. It holds no other key |
| CertStore.IssuerSearchMatches | indra/newview/llsecapicerthandler.cpp:1229-1247 | A store certificate matches the search exactly when its subject name, and where given its key id and serial, are those the certificate names for its issuer |
| CertStore.WalkUnfold | indra/newview/llsecapicerthandler.cpp:1183-1292 | One step of the walk either stops with its outcome or goes on to the next depth |
| CertStore.ValidateSpec | indra/newview/llsecapicerthandler.cpp:1074-1293 | A throw leaves the cache unchanged. A success either leaves it or records the leaf's id with its period, and the leaf's id is always cached after a success with validation on. An empty chain fails. The hostname is checked first, before the key-id and cache checks, and an empty key id fails |
| CertStore.WalkPassChecked | indra/newview/llsecapicerthandler.cpp:1183-1292 | A successful walk checked every certificate up to one anchored in the store. Without the trusted policy it may instead have checked the whole chain |
| CertStore.StepOutcome | indra/newview/llsecapicerthandler.cpp:1185-1277 | A step that goes on checked its certificate and its signature and found nothing in the store. One that succeeds found the certificate, or its issuer (which passed and signed it), in the store |
| CertStore.TrustedPassIsAnchored | indra/newview/llsecapicerthandler.cpp:1183-1292 | Under the trusted policy, success means some chain certificate is anchored in the store |
| CertStore.UnanchoredChainUntrusted | indra/newview/llsecapicerthandler.cpp:1183-1285 | With no store match along the chain, the trusted policy fails naming the last chain certificate |
| CertStore.StepUnanchored | indra/newview/llsecapicerthandler.cpp:1185-1277 | A checked certificate with no store match passes the walk on |
| CertStore.SuccessfulValidation | indra/newview/llsecapicerthandler.cpp:1074-1293 | A success that missed the cache passed the hostname check, walked a checked, anchored prefix and recorded the leaf's id with its period |
| CertStore.CacheHit | indra/newview/llsecapicerthandler.cpp:1145-1173 | A cached leaf leaves the cache unchanged and passes exactly when the time policy is off or the date lies in the cached period |
| CertStore.TimeValid | indra/newview/llsecapicerthandler.cpp:640-699 | The certificates kept by a load are certificates of the file that pass the time policy |
| CertStore.CertificateStore.Load | indra/newview/llsecapicerthandler.cpp:640-699 | The certificates of the file that pass the time policy at depth 0 are added in order, the ids staying distinct |
| CertStore.CertificateStore.Merge | indra/newview/llsecapicerthandler.cpp:1315-1320 | Every certificate of the other vector is added in order, the ids staying distinct |
| CertStore.CertificateStore.Validate | indra/newview/llsecapicerthandler.cpp:1074-1293 | validate's outcome and new cache are those of the reference definition |
| CertStore.CertificateStore.CheckHostname | indra/newview/llsecapicerthandler.cpp:1100-1119 | The hostname check of validate |
| CertStore.CertificateStore.WalkChain | indra/newview/llsecapicerthandler.cpp:1180-1292 | The loop over the chain with its depth counter computes the walk |
| CertStore.CertificateStore.CheckAt | indra/newview/llsecapicerthandler.cpp:1185-1277 | The loop body at one depth computes one step of the walk |
| CertStore.CertificateStore.LookUp | indra/newview/llsecapicerthandler.cpp:1209-1270 | The store search of the loop body computes the store's part of a step |
| MessageLog.ToLower | indra/newview/llfloatermessagelog.cpp:47-74 | Lower-casing keeps the length and lowers each letter |
| MessageLog.TrimHead | indra/newview/llfloatermessagelog.cpp:47-74 | Only leading white space is removed, all of it |
| MessageLog.TrimTail | indra/newview/llfloatermessagelog.cpp:47-74 | Only trailing white space is removed, all of it |
| MessageLog.Span | indra/newview/llfloatermessagelog.cpp:47-74 | The run of non-space characters at the front ends at a space or at the end |
| MessageLog.Tokens | indra/newview/llfloatermessagelog.cpp:47-74 | Tokens are non-empty and hold no space |
| MessageLog.ClassifyNegative | indra/newview/llfloatermessagelog.cpp:47-74 | A name is in the negative list exactly when some token, trimmed and lower-cased, is `!` followed by it |
| MessageLog.ClassifyPositive | indra/newview/llfloatermessagelog.cpp:47-74 | A name is in the positive list exactly when some token, trimmed and lower-cased, is that name and does not start with `!` |
| MessageLog.ClassifyStep | indra/newview/llfloatermessagelog.cpp:56-72 | The last token adds its name to one list, in order, or to none |
| MessageLog.ClassifyLowerCase | indra/newview/llfloatermessagelog.cpp:47-74 | Both lists hold lower-case names only |
| MessageLog.ToLowerIdempotent | indra/newview/llfloatermessagelog.cpp:62 | Lower-casing twice is lower-casing once |
| MessageLog.TokensAppend | indra/newview/llfloatermessagelog.cpp:51-55 | Two filters joined by a space tokenise to the tokens of each, in order |
| MessageLog.BareBang | indra/newview/llfloatermessagelog.cpp:64-68 | A bare `!` token adds the empty name to the negative list and nothing else |
| MessageLog.ClassifyBang | indra/newview/llfloatermessagelog.cpp:64-68 | A token that normalises to `!` adds the empty name to the negative list |
| MessageLog.TokensOfOne | indra/newview/llfloatermessagelog.cpp:51-55 | A single run of non-space characters is one token |
| MessageLog.CanonicalIgnoresCase | indra/newview/llfloatermessagelog.cpp:58-62 | Trimming then lower-casing a token does not depend on its letter case |
| MessageLog.TrimLower | indra/newview/llfloatermessagelog.cpp:58-62 | Trimming and lower-casing commute |
| MessageLog.TokensLower | indra/newview/llfloatermessagelog.cpp:51-55 | Tokenising a lower-cased filter gives the lower-cased tokens |
| MessageLog.ClassifyLower | indra/newview/llfloatermessagelog.cpp:56-72 | Lower-casing the tokens first does not change the lists |
| MessageLog.FilterIgnoresCase | indra/newview/llfloatermessagelog.cpp:47-74 | A filter and its lower-cased form give the same lists |
| MessageLog.Admits | indra/newview/llfloatermessagelog.cpp:500-534 | The loop with its have_positive flag keeps an entry exactly when no lower-cased name is negative and, if there are positives, one name is positive |
| MessageLog.EmptyFilterKeepsAll | indra/newview/llfloatermessagelog.cpp:500-534 | The empty filter has no names and keeps every entry |
| MessageLog.ExcludedNameDrops | indra/newview/llfloatermessagelog.cpp:500-534 | An entry with an excluded name is dropped |
| MessageLog.UnnamedEntryDrops | indra/newview/llfloatermessagelog.cpp:500-534 | With positive names, an entry none of whose names is positive is dropped |
| MessageLog.KeptEntries | indra/newview/llfloatermessagelog.cpp:93-124 | A filter pass keeps no more entries than the log holds |
| MessageLog.KeptEntriesMembers | indra/newview/llfloatermessagelog.cpp:93-124 | An entry is kept by a pass exactly when it is in the log and the filter keeps it |
| MessageLog.KeptEntriesSnoc | indra/newview/llfloatermessagelog.cpp:93-124 | One more entry extends what a pass keeps by that entry or by nothing |
| MessageLog.KeptEntriesPrefix | indra/newview/llfloatermessagelog.cpp:93-124 | The same step, for the prefixes of one log |
| MessageLog.NamelessFilterKeeps | indra/newview/llfloatermessagelog.cpp:500-534 | A filter with no names keeps every entry |
| MessageLog.EmptyFilterKeepsLog | indra/newview/llfloatermessagelog.cpp:93-124 | A pass of the empty filter keeps the whole log |
| MessageLog.NamelessFilterKeepsLog | indra/newview/llfloatermessagelog.cpp:93-124 | A pass of any filter without names keeps the whole log |
| MessageLog.Retained | indra/newview/llfloatermessagelog.cpp:470-479 | Trimming keeps the newest entries, at most 4096, and keeps everything when the log is short enough |
| MessageLog.SortMessageList | indra/newview/llfloatermessagelog.cpp:863-881 | Column 0 compares the cells read as integers, giving 0 exactly when they are equal; any other column is the dictionary comparison of the cell strings |
| MessageLog.SortBySequenceNumber | indra/newview/llfloatermessagelog.cpp:575-581 | The sequence cells, which hold the sequence numbers as decimal strings, sort by numeric value: comparing the cells of a and b is comparing a with b |
| MessageLog.CompareNumbers | indra/newview/llfloatermessagelog.cpp:867-878 | The column-0 comparison is 0 when equal, 1 when greater, -1 when smaller |
| MessageLog.CompareConsistent | indra/newview/llfloatermessagelog.cpp:867-878 | The comparison is antisymmetric and transitive |
| MessageLog.MessageLogFilter.constructor | indra/newview/llfloatermessagelog.cpp:42-45 | A new filter holds the raw string and the lists parsed from it |
| MessageLog.MessageLogFilter.Set | indra/newview/llfloatermessagelog.cpp:47-74 | set keeps the raw string and rebuilds both lists from scratch from its tokens, so a repeated set gives the same lists |
| MessageLog.MessageLogFloater.constructor | indra/newview/llfloatermessagelog.cpp:148-156 | A new floater has empty logs and holds the default filter |
| MessageLog.MessageLogFloater.DefaultFilter | indra/newview/llfloatermessagelog.cpp:38 | The default filter holds the default filter string and its parsed lists |
| MessageLog.MessageLogFloater.OnLog | indra/newview/llfloatermessagelog.cpp:459-490 | A response changes nothing. Any other entry is appended last, after trimming to 4096 entries unless a pass runs, so at most 4097 remain; it is shown when the filter keeps it |
| MessageLog.MessageLogFloater.ConditionalLog | indra/newview/llfloatermessagelog.cpp:492-534 | An entry joins the shown items exactly when the filter keeps it; nothing else changes |
| MessageLog.MessageLogFloater.StartApplyingFilter | indra/newview/llfloatermessagelog.cpp:755-771 | A new filter is applied, clearing the items and starting a pass, only when forced or when one of its lists differs; otherwise nothing changes |
| MessageLog.MessageLogFloater.StopApplyingFilter | indra/newview/llfloatermessagelog.cpp:773-787 | The running pass stops; nothing else changes |
| MessageLog.MessageLogFloater.ApplyFilterPass | indra/newview/llfloatermessagelog.cpp:93-124 | A pass offers every raw entry in order, adding what the filter keeps, then stops |
| Translate.Find | indra/newview/lltranslate.cpp:455-498 | std::string::find: the first occurrence at or after a position, or npos |
| Translate.FindFirst | indra/newview/lltranslate.cpp:455-498 | A first occurrence after a position is what find returns |
| Translate.ReplaceAbsent | indra/newview/lltranslate.cpp:204-211 | Replacing a target that does not occur leaves the text as it is |
| Translate.ReplaceWithoutLead | indra/newview/lltranslate.cpp:204-211 | Text without the target's first character is left as it is |
| Translate.ReplaceOnlyAtLead | indra/newview/lltranslate.cpp:204-211 | When the target's lead character occurs only at the start, at most that place is replaced |
| Translate.FixUpDecodesTwice | indra/newview/lltranslate.cpp:204-211 | As written, the escaped form of the text `&apos;` decodes to `'` |
| Translate.FixUpUndoesEscape | indra/newview/lltranslate.cpp:204-211 | The intended one-pass fix-up undoes the services' escaping exactly |
| Translate.FixUpPlainText | indra/newview/lltranslate.cpp:204-211 | The intended one-pass fix-up leaves text without `&` as it is |
| Translate.FixUpAsWrittenPlainText | indra/newview/lltranslate.cpp:204-211 | The six replacements as written leave text without `&` as it is, since each target starts with `&` |
| Translate.GetString | indra/newview/lltranslate.cpp:338-382 | Only a JSON string converts to a string |
| Translate.GetInt | indra/newview/lltranslate.cpp:338-351 | A JSON number or boolean converts to an integer |
| Translate.GoogleErrorResponse | indra/newview/lltranslate.cpp:338-351 | The translation and detected language are kept. Without an error object holding both a message and a code, nothing changes. With both, the call succeeds exactly when the message is a string and the code converts to an integer; the message then becomes the error message and the code the status |
| Translate.GoogleResponseCases | indra/newview/lltranslate.cpp:295-329 | An unparseable body fails with the parser's message, and a non-object root fails. A status other than OK fails. With OK, success implies a well-formed translation, and a well-formed translation succeeds unless a value has the wrong type |
| Translate.GoogleSuccess | indra/newview/lltranslate.cpp:354-382 | A well-formed translation copies translatedText, and the detected language defaults to the empty string |
| Translate.BingResponse | indra/newview/lltranslate.cpp:455-498 | Success exactly when the status is OK. On success the detected language is cleared and the translation is the extracted text; on failure the error message is |
| Translate.BingSample | indra/newview/lltranslate.cpp:481-496 | For `<string ...>Hola</string>`, and any text like it, the translation is the text between the tags |
| Translate.TaggedText | indra/newview/lltranslate.cpp:481-496 | The text between the first `>` and the closing tag is extracted |
| Translate.BingErrorWithoutMarker | indra/newview/lltranslate.cpp:464-478 | Without the "Message: " marker, the error is everything up to "</p>" |
| Translate.BingLanguageCode | indra/newview/lltranslate.cpp:513-516 | "zh" becomes "zh-CHT"; every other code is kept |
| Translate.URLSourceParameter | indra/newview/lltranslate.cpp:271-283 | The source language is appended only when it is given, as the last parameter, for Google and for Bing |
| Translate.GetHandler | indra/newview/lltranslate.cpp:629-640 | The handler returned reports the service asked for |
| Translate.PreferredHandler | indra/newview/lltranslate.cpp:615-626 | Google is chosen exactly when the setting is "google" |
| Translate.HandleResponse | indra/newview/lltranslate.cpp:195-227 | A Bing response succeeds exactly when the status is OK, delivering the text after the six replacements as written. A failure carries the request's status and the handler's message, or the generic text when that is empty |
| ShaderUniforms.IndexOf | indra/llrender/llglslshader.h:153-176 | find_if finds the first entry for the location, or the end |
| ShaderUniforms.Stored | indra/llrender/llglslshader.h:153-176 | memcpy of N words replaces the first N words and keeps the rest |
| ShaderUniforms.AsMapLookup | indra/llrender/llglslshader.h:153-176 | The cache as a dictionary holds a location exactly when find_if finds it, with the value found |
| ShaderUniforms.AsMapAppend | indra/llrender/llglslshader.h:160-167 | Appending an absent location adds it to the dictionary |
| ShaderUniforms.AsMapOverwrite | indra/llrender/llglslshader.h:168-172 | Overwriting the entry found replaces that location's value only |
| ShaderUniforms.UpdateKeepsInvariant | indra/llrender/llglslshader.h:153-176 | updateUniform keeps every value its type's width and the locations unique |
| ShaderUniforms.UpdateEffect | indra/llrender/llglslshader.h:153-176 | Without a program or with a negative location nothing changes and false is returned. Otherwise the location's first N words become the new ones and other locations are kept. It reports a change exactly when the location was absent or those words differed |
| ShaderUniforms.UpdateRepeat | indra/llrender/llglslshader.h:160-172 | An immediate repeat with the same value reports no change and changes nothing |
| ShaderUniforms.UniformCache.Update | indra/llrender/llglslshader.h:153-176 | The in-place update computes the reference definition and keeps the cache's invariant |
| ShaderUniforms.ArrayUploadPastEnd | indra/llrender/llglslshader.h:223-289 | As written, an index past mUniform with count above one uploads, though the location is -1 |
| ShaderUniforms.ArrayUpload | indra/llrender/llglslshader.h:223-289 | The corrected decision never uploads for an index past mUniform, and inside mUniform it is the decision as written |
| ShaderUniforms.UniformCache.constructor | indra/llrender/llglslshader.h:153-176 | A new cache is empty, with the default value of its type |
| ShaderUniforms.Shader.constructor | indra/llrender/llglslshader.h:119-176 | A shader not yet linked has no program, no uniforms and empty caches |
| ShaderUniforms.Shader.NamedLocation | indra/llrender/llglslshader.h:119-141 | The mapped location once the program exists, and -1 otherwise |
| ShaderUniforms.Shader.Uniform | indra/llrender/llglslshader.h:178-221 | The scalar setters upload exactly when the vector cache reports a change, which needs an index inside mUniform |
| ShaderUniforms.LocationAt | indra/llrender/llglslshader.h:143-151 | getUniformLocation(index) is mUniform[index] inside mUniform and -1 past its end |
| ShaderUniforms.Shader.UniformArray | indra/llrender/llglslshader.h:223-289 | The array setters update the cache with the first element and upload when it changed or count is above one, whatever the location. An index past mUniform with count above one therefore reads mUniform[index] past its end, and only then |
| ShaderUniforms.Shader.UniformNamed | indra/llrender/llglslshader.h:291-407 | The setters by name do nothing for an unknown name, and otherwise upload exactly when the cache reports a change |

## Left out

- OpenSSL is not modelled. This covers PEM/DER decoding and encoding, X509 name printing, bignum conversion and the `X509_get_ext_d2i` calls. A certificate is its decoded facts (`CertFields.X509Data`). The subject and issuer names are given as their entries and their printed strings.
- `_verify_signature` is the parameter `signs(parent, child)`, because it is an OpenSSL call.
- `time(NULL)` is the parameter `now`, and the `NoVerifySSLCert` setting is the parameter `noVerify`.
- `llsecapi.h` is not part of this model. The property-map key strings are constants here. The validation policy bitmask is a record of booleans, one per bit.
- `cert_date_from_asn1_time` and `cert_string_from_asn1_string` are not modelled. Dates are integers of seconds. The ISO rendering of an LLSD date is stood in for by its decimal number, which keeps distinct dates distinct.
- An extended-key-usage object whose NID is 0 has no short name and is modelled as an absent name.
- The invalid store context of the chain constructor is the missing leaf (`leaf` is `None`), and a null `untrusted` stack is an empty list.
- The null check of `getOpenSSLX509` in validate is not modelled: a modelled certificate always has its decoded data.
- Hostname.GlobMissingLiteral: states only that the character after a `*` must occur in the label. That a match ends with the literal after the last `*` follows from `Hostname.SubdomainMatchesIsGlob` and the glob definition, and is not stated as a lemma of its own.
- `llsd.cpp` is not part of this model. `LLSD.AsInteger` reads a string as an optional minus sign and the decimal digits that follow it, anything after them ignored and no digits read as 0. Leading white space, a `+` sign, exponents and overflow of the 32-bit result are not modelled.
- `LLSD.AsDate` does not parse strings: a string reads as the epoch, and so does any non-date validation date in `CertValidate.ValidationDate`. The ISO-8601 parsing of LLSD dates is not modelled.
- MessageLog.SortMessageList: compares the integers unbounded. `asInteger` returns a 32-bit integer, so its result for a sequence number above 2^31 - 1 is not modelled.
- CertFields.Asn1IntegerGet: models a 64-bit `long`. On a platform whose `long` has 32 bits, ASN1_INTEGER_get gives -1 from 2^31 on; that bound is not modelled.
- The array case of valueCompareLLSD where the left array is longer than the right one reads past the end of the right one in the source, which is undefined behaviour. The model returns false there.
- `load_from_file`, `save` and the handler's file paths are file I/O, and are not modelled. `CertStore.CertificateStore.Load` takes the certificates the file decodes to.
- CertStore.CertificateStore.Load: its contract states the data of the certificates built, not that their property maps are those of `CertFields.InitLLSD`, which keeps the proof small.
- `getPem`, `getBinary`, `getOpenSSLX509`, `storeId` and the store's lookups by id are not modelled, because they are conversions or file bookkeeping that carry no logic here.
- The message-log mutexes, the net list and the HTTP request/response pairing are not modelled, because they are concurrency and UI.
- The timer ticks of `LLMessageLogFilterApply` are not modelled separately. A filter pass is modelled as all its ticks run back to back (`MessageLog.MessageLogFloater.ApplyFilterPass`).
- The static raw-log list `sMessageLogEntries` is a field of the floater, and a missing floater instance is not modelled.
- The easy-message reader is not part of this model: each log entry carries the set of names it gives, as a sequence.
- Dictionary comparison of the columns other than 0 is the parameter `compareDict`.
- The HTTP coroutine, key verification and `addNoTranslateTags`/`removeNoTranslateTags` are not modelled. `LLURI::escape` and the API key are parameters of the URL functions. The localised `TranslationResponseParseError` text is the parameter `parseErrorText`.
- The intended fix-up `Translate.FixUp` is used only by the lemmas of the first finding. `Translate.HandleResponse` applies the fix-up as written, `Translate.FixUpAsWritten`.
- JSON floats are not modelled: JSON numbers are integers.
- The text parser of the JSON library is the parameter `parse`.
- GL calls, `gDebugGL`, profiling and texture binding are not modelled.
- The conversion of `uniform1i`'s integer to a float is left to the caller, which passes the words.
- The value of a default-constructed `LLVector4`, `LLMatrix3` or `LLMatrix4` is the constructor parameter of each cache.
- Without `LL_RELEASE_FOR_DOWNLOAD`, `UNIFORM_ERRS` is `LL_ERRS`, which aborts at an index past mUniform before any upload (llglslshader.h:30-34, 145-149). The model follows the release build, where it is a warning and the setter goes on.
- The setters by name decide to upload without looking at `count`, which they only pass on to GL. The model does the same.

## Findings

| source | as written | input that shows it | evidently intended | confidence | as-written member | corrected member |
|---|---|---|---|---|---|---|
| indra/newview/lltranslate.cpp:204-211 | `&amp;` is replaced before `&apos;`, so a decoded `&` can start a new entity | the translation of the text `&apos;`, escaped by the service as `&amp;apos;`, becomes `'` instead of `&apos;` | each entity decoded once, so the fix-up undoes the escaping | not executed | Translate.FixUpDecodesTwice | Translate.FixUpUndoesEscape |
| indra/llrender/llglslshader.h:223-289 | the array setters upload when `count > 1` even if `getUniformLocation(index)` returned -1 | index equal to `mUniform.size()` and count 2: `glUniform*v(mUniform[index], ...)` reads past the end of `mUniform` | no upload for an index outside `mUniform` | not executed | ShaderUniforms.ArrayUploadPastEnd | ShaderUniforms.ArrayUpload |

