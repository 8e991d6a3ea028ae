# Avahi domain-name library, modelled in Dafny

This project models the textual domain-name layer of Avahi's common library
(`avahi-common/domain.h`): the escape codec for single labels, name
normalization, case-insensitive comparison and hashing, the DNS-SD service-name
composer and decomposer (`<instance>.<_service>.<_tcp|_udp>.<domain>`, RFC 6763
section 4.1), the validity predicates for host names, domain names, fully
qualified names, service types and subtypes, and the classifier
`avahi_assess_domain_name`, which assigns a name its roles (service name,
service subtype, service type, domain name, domain root).

A name is a text of octets (`Octets.Text`: characters below 256). Labels are
separated by unescaped dots; inside a label `\DDD` (three decimal digits, at
most 255) spells any byte and `\` followed by any other character spells that
character. A raw label must fit a 64-byte buffer with its terminating NUL, so
at most 63 bytes (RFC 1035, section 2.3.4).

Modules, one concern each:

- `Octets` (`octets.dfy`): octets, texts, ASCII digits and case folding, the error kinds, `Result` and `Option`.
- `Codec` (`escape.dfy`): `Escape`, the unit decoder and label reader (`ReadLabel`), their round trip, the imperative `UnescapeLabel` loop and `EscapeLabel`, which writes into a `Writer` (a fixed array with a write position).
- `Names` (`names.dfy`): splitting a name into its labels (`Segments`), `Normalize`, `DomainEqual` and `DomainHash`.
- `Service` (`service.dfy`): `ServiceNameJoin` (with the buffer-writing method `ServiceNameJoinInto`) and `ServiceNameSplit`.
- `Validate` (`validate.dfy`): the validity predicates and `GetTypeFromSubtype`.
- `Assess` (`assess.dfy`): the classifier.
- `CodecTest`, `NamesTest`, `ServiceTest`, `ValidatorTest`, `ClassifierTest`: one lemma per call or assertion of `avahi-common/domain-test.c`, stating the outcome the test prints or asserts.

Only `avahi-common/domain-test.c` is cited below. `avahi-common/domain.c` is
not part of this model, so each operation is stated as far as the test's calls
and assertions pin it down, and the general lemmas state the properties those
calls rely on (round trips, equivalence, idempotence, role rules).

`Service.ServiceNameSplit` does not skip an instance label when the caller
passes no instance buffer: it reads the type from the first label. The test at
`avahi-common/domain-test.c:81-85` joins a name without an instance and then
splits it with no instance buffer, expecting `_http._tcp` back as the type,
which only holds if nothing is skipped. When the instance is wanted, it is read
like any other label: into the caller's buffer, but never into more than 64
bytes, so an instance keeps the 63-byte label limit. After the instance, two
type labels and at least one domain label must remain; a name that ends right
after its type is TruncatedName.

## Model

| member | source | states |
|---|---|---|
| Octets.DigitChar | avahi-common/domain-test.c:57 | the digit spelled for a value below 10 is a digit and reads back as that value (the digits of a `\DDD` escape) |
| Octets.Lower | avahi-common/domain-test.c:67-68 | ASCII upper-case letters are lowered by 32, every other octet is unchanged, and the result is never an upper-case letter |
| Octets.FoldIdempotent | avahi-common/domain-test.c:67-68 | a folded label holds no upper-case letter, folding it again changes nothing, and every label is equal up to case to its folding |
| Octets.SameFoldedAt | avahi-common/domain-test.c:67-70 | two labels are equal up to case exactly when they have the same length and agree octet by octet after lowering |
| Codec.EscapeOctet | avahi-common/domain-test.c:94 | a byte is written as itself exactly when it is printable ASCII other than `.` and `\`; `.` and `\` are written behind a backslash; every escape is 1 to 4 characters |
| Codec.EscapeDecimal | avahi-common/domain-test.c:94 | every other byte is written as `\` and three decimal digits whose value is the byte |
| Codec.Escape | avahi-common/domain-test.c:94 | the escaped label is at least as long as the raw label and at most four times as long |
| Codec.EscapeAppend | avahi-common/domain-test.c:94 | escaping works byte by byte: escaping a concatenation concatenates the escapes |
| Codec.EscapePlain | avahi-common/domain-test.c:94 | a label of plain bytes escapes to itself |
| Codec.DecodeUnit | avahi-common/domain-test.c:89 | at a cursor the text holds its end, a separator (an unescaped `.`), or a byte spelled with 1 to 4 characters; a 1-character byte is exactly one that is neither `.` nor `\` |
| Codec.DecodeEscapedOctet | avahi-common/domain-test.c:94-97 | the escape of any byte decodes back to that byte, whatever text surrounds it |
| Codec.ReadLabelFrom | avahi-common/domain-test.c:89 | a successful read ends after a separator or at the end of the text and yields fewer bytes than the buffer size; a failure is MalformedEscape or LabelTooLong |
| Codec.ReadLabel | avahi-common/domain-test.c:89 | reading a label from a cursor either yields fewer bytes than the buffer size and stops after a separator or at the end of the text, or fails with MalformedEscape or LabelTooLong; a zero-size buffer always fails with LabelTooLong |
| Codec.ReadTooLong | avahi-common/domain-test.c:89 | a label that spells as many bytes as the buffer size or more is refused with LabelTooLong |
| Codec.ReadEscapedToEnd | avahi-common/domain-test.c:84 | an escaped label that runs to the end of a text is read back whole, with no separator after it |
| Codec.ReadEscapedTooLong | avahi-common/domain-test.c:89 | an escaped label of as many raw bytes as the buffer size or more, found anywhere in a text, is refused there with LabelTooLong |
| Codec.ReadMalformedAt | avahi-common/domain-test.c:89 | a bad escape reached while the bytes before it still fit the buffer makes the read fail with MalformedEscape |
| Codec.ReadTrailingBackslash | avahi-common/domain-test.c:89 | a backslash at the very end of the text is a malformed escape |
| Codec.ReadDecimalTooLarge | avahi-common/domain-test.c:89 | a three-digit decimal escape above 255 is a malformed escape |
| Codec.ReadShortDecimal | avahi-common/domain-test.c:89 | a backslash and a digit not followed by two more digits is a malformed escape |
| Codec.ReadErrorCause | avahi-common/domain-test.c:89 | conversely, every failed read is one of those: LabelTooLong after spelled bytes that fill the buffer, or MalformedEscape at a bad escape after bytes that fit |
| Codec.UnescapeLabel | avahi-common/domain-test.c:89-97 | the unit-by-unit loop returns exactly the label reader's result: the raw label, where the cursor stops, and whether a separator ended it |
| Codec.Writer.constructor | avahi-common/domain-test.c:91-92 | a new writer owns a fresh buffer of the given size with nothing written |
| Codec.Writer.Put | avahi-common/domain-test.c:94 | appending a piece that fits leaves the written text extended by exactly that piece and the rest of the buffer untouched |
| Codec.EscapeLabel | avahi-common/domain-test.c:94 | writing the escaped label succeeds exactly when it and its NUL fit the room left; on success the buffer holds the old text plus the escape, NUL-terminated; on failure at most a prefix of the escape was written |
| Codec.EscapeRoundTrip | avahi-common/domain-test.c:94-97 | reading an escaped label back, inside any text and followed by the end or a separator, gives the raw label, and the cursor stops after the separator |
| Codec.BareRoundTrip | avahi-common/domain-test.c:88-89 | a label with no `.` or `\` is read back as written |
| Names.SegmentsFrom | avahi-common/domain-test.c:57-65 | splitting a name yields at least one label, each shorter than 64 bytes, or the codec's error |
| Names.Segments | avahi-common/domain-test.c:57-72 | a whole name splits into at least one label, each shorter than 64 bytes, or fails with the codec's error; the empty name is the single empty label |
| Names.SegmentsOfCanonical | avahi-common/domain-test.c:57-65 | splitting the canonical spelling of any labels (each escaped, joined by dots) gives those labels back |
| Names.SegmentsOfSpellings | avahi-common/domain-test.c:67-72 | a name written with any spelling of each label splits into the raw labels |
| Names.SegmentsOfBare | avahi-common/domain-test.c:121-145 | bare labels joined by dots split into those labels |
| Names.SegmentsCons | avahi-common/domain-test.c:67-72 | a spelled label, a dot and a name split into the raw label followed by that name's labels |
| Names.SegmentsAppendDot | avahi-common/domain-test.c:152-153 | a final dot adds exactly one empty label |
| Names.SegmentsDotPrefix | avahi-common/domain-test.c:155-156 | a leading dot adds exactly one leading empty label |
| Names.EmptyPieces | avahi-common/domain-test.c:148 | the only name whose split is a single empty label is "" |
| Names.RootPieces | avahi-common/domain-test.c:149 | the only name whose split is two empty labels is "." |
| Names.Body | avahi-common/domain-test.c:67 | dropping the empty label a final dot leaves yields a non-empty prefix of the labels |
| Names.NameLabels | avahi-common/domain-test.c:67-72 | the labels compared and hashed: every name that splits has at least one |
| Names.NameLabelsAppendDot | avahi-common/domain-test.c:67 | a final dot on a name that has none adds no label, so `x` and `x.` have the same labels |
| Names.Normalize | avahi-common/domain-test.c:57-65 | a normalized name fits the buffer with its NUL and comes only from a splittable name; failures are NameTooLong or the codec's error on the first bad label |
| Names.NormalizeKeepsLabels | avahi-common/domain-test.c:57-65 | normalizing never changes the labels of a name |
| Names.NormalizeKeepsPieces | avahi-common/domain-test.c:57-65 | normalizing a non-empty name keeps all its pieces, so a final dot is kept exactly when there was one, and empty labels elsewhere are kept too (`a..b` normalizes to itself) |
| Names.NormalizeIdempotent | avahi-common/domain-test.c:57-65 | normalizing a normalized name gives it back unchanged |
| Names.NormalizeCanonical | avahi-common/domain-test.c:60-65 | a name already in canonical spelling that fits is its own normal form |
| Names.NormalizeRoot | avahi-common/domain-test.c:134-135 | "" and "." both normalize to "." |
| Names.EqualIffSameKey | avahi-common/domain-test.c:67-70 | two names are equal exactly when their lowered label lists coincide |
| Names.DomainEqual | avahi-common/domain-test.c:67-70 | two valid names are equal when their labels agree pairwise up to ASCII case; equal names have the same number of labels, and names with the same labels are equal |
| Names.EqualReflexive | avahi-common/domain-test.c:67-70 | every valid name equals itself |
| Names.EqualSymmetric | avahi-common/domain-test.c:67-70 | name equality is symmetric |
| Names.EqualTransitive | avahi-common/domain-test.c:67-70 | name equality is transitive |
| Names.NormalizeEqual | avahi-common/domain-test.c:57-67 | a name equals its normal form |
| Names.EqualIgnoresFinalDot | avahi-common/domain-test.c:67 | a name without a final dot equals itself with one |
| Names.HashAgreesWithEqual | avahi-common/domain-test.c:72 | equal names hash equal, for every per-byte hash step |
| Names.DomainHash | avahi-common/domain-test.c:72 | the hash feeds the case-folded raw labels to the step from 0, so the root name hashes to 0 |
| Service.ServiceNameJoin | avahi-common/domain-test.c:75-82 | the join succeeds exactly when the escaped instance, type, domain and separators fit the buffer with the NUL; its length is that sum; the only failure is BufferTooSmall |
| Service.ServiceNameJoinInto | avahi-common/domain-test.c:75-82 | writing the join into a buffer succeeds exactly when the join does, and then the buffer holds exactly the joined name after what was there, a NUL after it, and the rest of the buffer unchanged |
| Service.Required | avahi-common/domain-test.c:78-85 | a label the split needs is read by the label reader; at the end of the text it is TruncatedName |
| Service.SplitType | avahi-common/domain-test.c:78-85 | the type and domain fit their buffers; the domain is the verbatim tail of the text after a separator, so a third label must follow the type; errors are the codec's, TruncatedName or BufferTooSmall |
| Service.SplitTypeTruncated | avahi-common/domain-test.c:78-85 | reading the type and domain is TruncatedName exactly when fewer than three labels remain: the text ends at the cursor, after the first label, or the second label runs to the end |
| Service.TypeWithoutDomain | avahi-common/domain-test.c:84 | a text that ends right after an escaped type has no domain after it, and reading the type and domain there is TruncatedName |
| Service.InstanceSize | avahi-common/domain-test.c:78 | the instance is read into the caller's name buffer but never into more than a 64-byte label buffer |
| Service.ServiceNameSplit | avahi-common/domain-test.c:78-85 | an instance is returned exactly when one is wanted, and it is shorter than both its buffer and a label buffer (so at most 63 bytes); type and domain fit theirs; the domain is a verbatim suffix that follows a separator; errors are the codec's, TruncatedName or BufferTooSmall |
| Service.SplitTypeJoined | avahi-common/domain-test.c:81-85 | the type and domain read back from a joined name are the escaped service and protocol and the domain as given |
| Service.SplitJoinInstance | avahi-common/domain-test.c:75-79 | splitting a joined name with an instance returns the raw instance, the type and the domain |
| Service.SplitJoin | avahi-common/domain-test.c:75-85 | splitting what join produced gives back the instance (if any, of at most 63 bytes), the type and the domain |
| Service.SplitLongInstance | avahi-common/domain-test.c:78 | an escaped instance of 64 bytes or more, or one that does not fit the name buffer with its NUL, makes the split fail with LabelTooLong, however large the name buffer |
| Service.SplitInstanceFails | avahi-common/domain-test.c:78 | when the instance label cannot be read, the split fails with the reader's error |
| Service.SplitWithoutDomain | avahi-common/domain-test.c:78-85 | a name that ends right after its type, with or without an instance in front, is refused with TruncatedName |
| Validate.MarkersFold | avahi-common/domain-test.c:99-117 | the protocol labels are exactly those that fold to `_tcp` or `_udp`, the subtype marker exactly the one that folds to `_sub` |
| Validate.IsValidServiceTypeGeneric | avahi-common/domain-test.c:99 | a generic service type is a name that splits without error into two or more labels (a final dot adding none), each starting with `_` |
| Validate.IsValidServiceTypeStrict | avahi-common/domain-test.c:100 | a strict service type is a name that splits into exactly two labels (a final dot adding none), `_service` then `_tcp` or `_udp` in any case |
| Validate.IsValidServiceSubtype | avahi-common/domain-test.c:101 | a subtype is a name that splits into exactly four labels (a final dot adding none): `_subtype`, `_sub` in any case, `_service`, then `_tcp` or `_udp` |
| Validate.IsValidHostName | avahi-common/domain-test.c:121-125 | a host name splits without error into one non-empty label with no dot after it |
| Validate.IsValidDomainName | avahi-common/domain-test.c:127-132 | a domain name splits without error and is "", ".", or non-empty labels joined by single dots with at most one final dot |
| Validate.IsValidFqdn | avahi-common/domain-test.c:137-145 | a fully qualified name is a valid domain name of at least two labels, not four numeric labels, and holding no `:` |
| Validate.GetTypeFromSubtype | avahi-common/domain-test.c:119 | a type is returned exactly for valid service subtypes |
| Validate.TypeFromSubtype | avahi-common/domain-test.c:119 | the type of a subtype consists of its last two labels and is a valid strict service type |
| Validate.TypeOfBareSubtype | avahi-common/domain-test.c:119 | for a subtype written with bare labels the type is its last two labels as written |
| Validate.StrictIsGeneric | avahi-common/domain-test.c:103-104 | every strict service type passes the generic check |
| Validate.SubtypeIsGeneric | avahi-common/domain-test.c:115-117 | every service subtype passes the generic check |
| Validate.HostIsDomain | avahi-common/domain-test.c:121-145 | a valid host name is a valid domain name and never a fully qualified one |
| Validate.DomainTrailingDot | avahi-common/domain-test.c:127-132 | appending a dot keeps a name a valid domain name exactly when it was one without a final dot |
| Assess.AssessBare | avahi-common/domain-test.c:159-161 | a name of bare labels is classified on those labels |
| Assess.AssessDomainName | avahi-common/domain-test.c:147-187 | an absent name or one with a bad label is Invalid, and a valid name always has at least one role |
| Assess.Classify | avahi-common/domain-test.c:148-187 | a classified list of labels that is not Invalid has at least one role |
| Assess.MatchFirst | avahi-common/domain-test.c:172-187 | the first layout whose protocol marker is in place decides the roles |
| Assess.OutcomeRoles | avahi-common/domain-test.c:174-187 | a well-formed layout always gives ServiceType, ServiceName exactly when it has an instance label, ServiceSubtype exactly when it has a `_sub` pair, DomainName exactly when labels follow the protocol, and never DomainRoot |
| Assess.MatchRoles | avahi-common/domain-test.c:147-187 | a recognized name always has ServiceType or DomainName, and DomainRoot never comes from the layouts |
| Assess.MatchFallback | avahi-common/domain-test.c:163-170 | an unknown protocol degrades: the labels are a plain domain name exactly when no layout finds its protocol marker |
| Assess.RootOnly | avahi-common/domain-test.c:148-149 | a name is nothing but the root exactly when it is "" or "." |
| Assess.EmptyLabelInvalid | avahi-common/domain-test.c:150-157 | an empty label after the first, other than the final one, makes the name Invalid |
| Assess.LeadingDotIgnored | avahi-common/domain-test.c:155-157 | one leading dot does not change the roles |
| Assess.TrailingDotAddsRoot | avahi-common/domain-test.c:152-153 | a final dot adds DomainRoot and changes nothing else |
| Assess.DomainRootIff | avahi-common/domain-test.c:147-187 | a valid name has DomainRoot exactly when it is "" or ends with an unescaped dot |
| CodecTest.UnescapeSample | avahi-common/domain-test.c:88-89 | the first label of the sample reads back as its raw bytes, and the cursor stops on `sdfjhskjdf` |
| CodecTest.EscapeAe | avahi-common/domain-test.c:88 | the bytes of `ä` escape to `\195\164` |
| CodecTest.EscapeOe | avahi-common/domain-test.c:88 | the bytes of `ö` escape to `\195\182` |
| CodecTest.EscapeUe | avahi-common/domain-test.c:88 | the bytes of `ü` escape to `\195\188` |
| CodecTest.EscapeSample | avahi-common/domain-test.c:91-94 | the raw sample label escapes to the expected canonical text, which fits the 256-byte buffer |
| CodecTest.UnescapeEscapedSample | avahi-common/domain-test.c:96-97 | the escaped sample reads back as the raw sample, up to the end of the text |
| CodecTest.EscapeSampleRoundTrip | avahi-common/domain-test.c:88-97 | unescape, escape and unescape again in sequence yield the raw label, its canonical escape and the raw label again |
| NamesTest.NormalizeDecimalEscape | avahi-common/domain-test.c:57 | `foo.foo\046.` normalizes to `foo.foo\..` |
| NamesTest.NormalizeEscapedDot | avahi-common/domain-test.c:60 | `foo.foo\.foo.` is already normal |
| NamesTest.NormalizeEscapedBackslash | avahi-common/domain-test.c:64 | `fo\\o\..f oo.` is already normal |
| NamesTest.EqualSpellings | avahi-common/domain-test.c:67 | the two spellings with decimal escapes, upper case and a final dot are equal |
| NamesTest.EqualIgnoresCase | avahi-common/domain-test.c:68 | `A` equals `a` |
| NamesTest.UnequalLengths | avahi-common/domain-test.c:70 | `a` does not equal `aaa` |
| NamesTest.HashSpellings | avahi-common/domain-test.c:72 | `ccc\065aa.aa\.b\\.` and `cccAaa.aa\.b\\` hash equal |
| NamesTest.NormalizeRootNames | avahi-common/domain-test.c:134-135 | "." and "" normalize successfully |
| ServiceTest.JoinInstance | avahi-common/domain-test.c:75 | joining `foo.foo.foo \.`, `_http._tcp` and `test.local` gives the escaped instance, the type and the domain joined by dots |
| ServiceTest.SplitInstance | avahi-common/domain-test.c:78 | splitting that name gives back the instance, `_http._tcp` and `test.local` |
| ServiceTest.JoinTypeOnly | avahi-common/domain-test.c:81 | joining no instance, `_http._tcp` and `one.two\. .local` gives `_http._tcp.one.two\. .local` |
| ServiceTest.SplitTypeOnly | avahi-common/domain-test.c:84 | splitting that name without an instance gives back `_http._tcp` and `one.two\. .local` |
| ServiceTest.SplitTypeWithoutDomain | avahi-common/domain-test.c:78-84 | `_http._tcp` alone, and the test's instance followed by `_http._tcp` alone, are refused with TruncatedName |
| ServiceTest.JoinInstanceInto | avahi-common/domain-test.c:75 | writing the instance join into a 256-byte buffer succeeds with the joined name |
| ServiceTest.JoinTypeOnlyInto | avahi-common/domain-test.c:81 | writing the type-only join into a 256-byte buffer succeeds with the joined name |
| ValidatorTest.SubtypeType | avahi-common/domain-test.c:119 | the type of `_foo._sub._bar._tcp` is `_bar._tcp` |
| ClassifierTest.AssessAbsent | avahi-common/domain-test.c:147 | an absent name is Invalid |
| ValidatorTest.TypeFooBarWaldo | avahi-common/domain-test.c:99-101 | IsValidServiceTypeGeneric("_foo._bar._waldo"); not IsValidServiceTypeStrict("_foo._bar._waldo"); not IsValidServiceSubtype("_foo._bar._waldo") |
| ValidatorTest.TypeFooTcp | avahi-common/domain-test.c:103-105 | IsValidServiceTypeGeneric("_foo._tcp"); IsValidServiceTypeStrict("_foo._tcp"); not IsValidServiceSubtype("_foo._tcp") |
| ValidatorTest.TypeFooBarPlainWaldo | avahi-common/domain-test.c:107-109 | not IsValidServiceTypeGeneric("_foo._bar.waldo"); not IsValidServiceTypeStrict("_foo._bar.waldo"); not IsValidServiceSubtype("_foo._bar.waldo") |
| ValidatorTest.TypeEmpty | avahi-common/domain-test.c:111-113 | not IsValidServiceTypeGeneric(""); not IsValidServiceTypeStrict(""); not IsValidServiceSubtype("") |
| ValidatorTest.TypeFooSubBarTcp | avahi-common/domain-test.c:115-117 | IsValidServiceTypeGeneric("_foo._sub._bar._tcp"); not IsValidServiceTypeStrict("_foo._sub._bar._tcp"); IsValidServiceSubtype("_foo._sub._bar._tcp") |
| ValidatorTest.HostEmpty | avahi-common/domain-test.c:121 | not IsValidHostName("") |
| ValidatorTest.HostDot | avahi-common/domain-test.c:122 | not IsValidHostName(".") |
| ValidatorTest.HostTwoLabelsDot | avahi-common/domain-test.c:123 | not IsValidHostName("sf.ooo.") |
| ValidatorTest.HostLabelDot | avahi-common/domain-test.c:124 | not IsValidHostName("sfooo.") |
| ValidatorTest.HostLabel | avahi-common/domain-test.c:125 | IsValidHostName("sfooo") |
| ValidatorTest.DomainDoubleDot | avahi-common/domain-test.c:127 | not IsValidDomainName("..") |
| ValidatorTest.DomainDot | avahi-common/domain-test.c:128 | IsValidDomainName(".") |
| ValidatorTest.DomainEmpty | avahi-common/domain-test.c:129 | IsValidDomainName("") |
| ValidatorTest.DomainComDoubleDot | avahi-common/domain-test.c:130 | not IsValidDomainName("com..") |
| ValidatorTest.DomainComDot | avahi-common/domain-test.c:131 | IsValidDomainName("com.") |
| ValidatorTest.DomainCom | avahi-common/domain-test.c:132 | IsValidDomainName("com") |
| ValidatorTest.FqdnDot | avahi-common/domain-test.c:137 | not IsValidFqdn(".") |
| ValidatorTest.FqdnEmpty | avahi-common/domain-test.c:138 | not IsValidFqdn("") |
| ValidatorTest.FqdnFoo | avahi-common/domain-test.c:139 | not IsValidFqdn("foo") |
| ValidatorTest.FqdnFooBar | avahi-common/domain-test.c:140 | IsValidFqdn("foo.bar") |
| ValidatorTest.FqdnFooBarDot | avahi-common/domain-test.c:141 | IsValidFqdn("foo.bar.") |
| ValidatorTest.FqdnGnurzFooBarDot | avahi-common/domain-test.c:142 | IsValidFqdn("gnurz.foo.bar.") |
| ValidatorTest.FqdnDottedQuad | avahi-common/domain-test.c:143 | not IsValidFqdn("192.168.50.1") |
| ValidatorTest.FqdnIpv6Loopback | avahi-common/domain-test.c:144 | not IsValidFqdn("::1") |
| ValidatorTest.FqdnDotDottedQuadDot | avahi-common/domain-test.c:145 | not IsValidFqdn(".192.168.50.1.") |
| ClassifierTest.AssessEmpty | avahi-common/domain-test.c:148 | `` is {DomainRoot} |
| ClassifierTest.AssessDot | avahi-common/domain-test.c:149 | `.` is {DomainRoot} |
| ClassifierTest.AssessDoubleDot | avahi-common/domain-test.c:150 | `..` is Invalid |
| ClassifierTest.AssessDomain | avahi-common/domain-test.c:152 | `domain` is {DomainName} |
| ClassifierTest.AssessDomainDot | avahi-common/domain-test.c:153 | `domain.` is {DomainName, DomainRoot} |
| ClassifierTest.AssessDomainDoubleDot | avahi-common/domain-test.c:154 | `domain..` is Invalid |
| ClassifierTest.AssessDotDomain | avahi-common/domain-test.c:155 | `.domain` is {DomainName} |
| ClassifierTest.AssessDotDomainDot | avahi-common/domain-test.c:156 | `.domain.` is {DomainName, DomainRoot} |
| ClassifierTest.AssessDotDomainDoubleDot | avahi-common/domain-test.c:157 | `.domain..` is Invalid |
| ClassifierTest.AssessHostDomain | avahi-common/domain-test.c:159 | `host.domain` is {DomainName} |
| ClassifierTest.AssessSubHostDomain | avahi-common/domain-test.c:160 | `sub.host.domain` is {DomainName} |
| ClassifierTest.AssessSubSubHostDomain | avahi-common/domain-test.c:161 | `sub.sub.host.domain` is {DomainName} |
| ClassifierTest.AssessFooBar | avahi-common/domain-test.c:164 | `foo._bar` is {DomainName} |
| ClassifierTest.AssessUFooBar | avahi-common/domain-test.c:165 | `_foo._bar` is {DomainName} |
| ClassifierTest.AssessUFooBarDot | avahi-common/domain-test.c:166 | `_foo._bar.` is {DomainName, DomainRoot} |
| ClassifierTest.AssessUFooBarDomain | avahi-common/domain-test.c:167 | `_foo._bar.domain` is {DomainName} |
| ClassifierTest.AssessUFooBarDomainDot | avahi-common/domain-test.c:168 | `_foo._bar.domain.` is {DomainName, DomainRoot} |
| ClassifierTest.AssessNameFooBarDomain | avahi-common/domain-test.c:169 | `name._foo._bar.domain` is {DomainName} |
| ClassifierTest.AssessUNameFooBarDomain | avahi-common/domain-test.c:170 | `_name._foo._bar.domain` is {DomainName} |
| ClassifierTest.AssessFooTcp | avahi-common/domain-test.c:173 | `foo._tcp` is Invalid |
| ClassifierTest.AssessSvcTcp | avahi-common/domain-test.c:174 | `_svc._tcp` is {ServiceType} |
| ClassifierTest.AssessSvcTcpDot | avahi-common/domain-test.c:175 | `_svc._tcp.` is {ServiceType, DomainRoot} |
| ClassifierTest.AssessSvcTcpDomain | avahi-common/domain-test.c:176 | `_svc._tcp.domain` is {ServiceType, DomainName} |
| ClassifierTest.AssessSvcTcpDomainDot | avahi-common/domain-test.c:177 | `_svc._tcp.domain.` is {ServiceType, DomainName, DomainRoot} |
| ClassifierTest.AssessNameSvcTcpDomain | avahi-common/domain-test.c:178 | `name._svc._tcp.domain` is {ServiceName, ServiceType, DomainName} |
| ClassifierTest.AssessUNameSvcTcpDomain | avahi-common/domain-test.c:179 | `_name._svc._tcp.domain` is {ServiceName, ServiceType, DomainName} |
| ClassifierTest.AssessFooSubSvcTcp | avahi-common/domain-test.c:181 | `foo._sub._svc._tcp` is Invalid |
| ClassifierTest.AssessInstSubSvcTcp | avahi-common/domain-test.c:182 | `_inst._sub._svc._tcp` is {ServiceSubtype, ServiceType} |
| ClassifierTest.AssessInstSubSvcTcpDot | avahi-common/domain-test.c:183 | `_inst._sub._svc._tcp.` is {ServiceSubtype, ServiceType, DomainRoot} |
| ClassifierTest.AssessInstSubSvcTcpDomain | avahi-common/domain-test.c:184 | `_inst._sub._svc._tcp.domain` is {ServiceSubtype, ServiceType, DomainName} |
| ClassifierTest.AssessInstSubSvcTcpDomainDot | avahi-common/domain-test.c:185 | `_inst._sub._svc._tcp.domain.` is {ServiceSubtype, ServiceType, DomainName, DomainRoot} |
| ClassifierTest.AssessNameInstSubSvcTcpDomain | avahi-common/domain-test.c:186 | `name._inst._sub._svc._tcp.domain` is {ServiceName, ServiceSubtype, ServiceType, DomainName} |
| ClassifierTest.AssessUNameInstSubSvcTcpDomain | avahi-common/domain-test.c:187 | `_name._inst._sub._svc._tcp.domain` is {ServiceName, ServiceSubtype, ServiceType, DomainName} |

## Left out

- Output through `printf`, allocation by `avahi_normalize_name_strdup` and `avahi_free`, and the `DEBUG` environment switch of `test_kt`: these are I/O. The test lemmas state the values the test prints or asserts.
- `avahi-common/domain.c` is not part of this model. The byte-level pointer walking of the C code is modelled as a cursor into an immutable text.
- Names.DomainEqual and Names.DomainHash are defined only on names that split into labels without error. The test calls them only on such names (`avahi-common/domain-test.c:67-72`), so what they give for a malformed name is not pinned down and is left out.
- Names.DomainHash: the concrete hash arithmetic is not modelled. The hash is parameterised by a per-byte step over 32-bit values, and only the property the library promises is proved: equal names hash equal.
- Buffer sizes are parameters (`size`, `nameSize`, `typeSize`, `domainSize`). The whole-name maximum `AVAHI_DOMAIN_NAME_MAX` is not a constant of the model, and the validators do not check a whole-name length limit.
- Characters are octets. No character set is interpreted, and case folding is ASCII only.
- Codec.EscapeLabel: on failure, only a prefix of the escape is promised to have been written; exactly how much is left out.
- Service.ServiceNameJoinInto: on failure, what was written to the buffer is left out.
- A raw label here may hold a NUL byte (`\000` decodes to it). In C the label is a NUL-terminated string, so such a label would be cut short there; the model keeps the whole byte sequence.
- A label, the instance label of a service name included, is limited by its 64-byte buffer. The 63-byte wire limit and the 255-byte wire-name limit of RFC 1035 are not checked separately.
