# Certificate processing and shared state of the vendored BoringSSL, modelled in Dafny

The application carries a copy of BoringSSL under `ios/ExternalLibraries/boringssl-master`. This
project models the parts of it that decide things about certificates (name constraints, names as
text, times, integers, policies, revocation by CRL and by OCSP), modular exponentiation, the
`/proc/cpuinfo` tokenizer, and the three files whose state is shared between threads (reference
counts, ex_data registrations, thread-local values). The code is modelled statement by statement
as methods over classes, arrays and parsers where it works in place, and as transition systems
with any number of threads where it runs concurrently; what the methods compute is tied to
functions and predicates, and lemmas prove what those mean.

Run `dafny verify dfyconfig.toml` to check everything.

## Layout

- `Bits`, `Bytes`, `Modular`, `Wrappers`, `Strings`: integers as bits, octets, congruence, options, ASCII strings.
- `Der`: reading DER elements (section 10.1 of ITU-T X.690 lengths, 8.1.2 tags), and loops over them.
- `InputOrder`, `SortedSets`, `Policies`: octet order, the sort-based set tests, certificate policies.
- `Times`, `PosixTime`, `Integers`, `OidText`: text, octet and POSIX forms of times, integers and object identifiers.
- `ParseName`, `Rfc2253`, `NameGrammar`: names, printing them, a decoder that undoes the printing (RFC 2253, sections 2.1 to 2.4), and the grammar of the text.
- `DerEncoding`, `Encodings`, `NameEncodings`: encoders; the parsers accept exactly what these write.
- `IpUtil`, `DnsNames`, `Rfc822`, `GeneralNames`, `NameConstraints`, `NameConstraintsLaws`: section 4.2.1.10 of RFC 5280.
- `Extensions`, `Crl`, `CheckCrl`, `Ocsp`: section 6.3.3 of RFC 5280 and section 4.2.2.2 of RFC 6960.
- `ModExp`, `CpuInfo`.
- `RefCount`, `ExData`, `ExDataStore`, `ThreadLocal`: shared state.

The transition systems are `RefCount.Step` (crypto/refcount.c:30-59), `ExData.Enabled` and
`ExData.Apply` (crypto/ex_data.c:135-170 for the writers, 209-234 for the readers), and
`ThreadLocal.Enabled` and `ThreadLocal.Apply` (crypto/thread_pthread.c:71-148): one event per access
to shared memory, by any thread that is at that statement. A run is any sequence of such steps; a
weak compare-and-swap may fail for no reason.

Where code and comment differ, the code is followed: the comment above `ValidateGeneralizedTime`
speaks of a four-digit year, which the function does not check; the debug assertion in
`CRYPTO_free_ex_data` is one short of what `CRYPTO_get_ex_new_index_ex` allows; names are printed with equals signs
and inner number signs bare and blanks behind a backslash, which the grammar of RFC 4514 allows and the
stricter one in section 3 of RFC 2253 does not, and an unknown type with empty contents as a number sign alone.

## Model

| member | source | states |
|---|---|---|
| DnsNames.DNSNameMatches | ios/ExternalLibraries/boringssl-master/pki/name_constraints.cc:57-113 | for every name, constraint and mode the string code decides membership in a subtree: after one final dot is dropped the constraint's lower-cased labels end the name's, with at least one more label when the constraint starts with a dot; a wildcard in partial mode matches when some host it stands for (any label but the star) is in the subtree or the constraint spells out the wildcard itself |
| DnsNames.DottedSuffix | ios/ExternalLibraries/boringssl-master/pki/name_constraints.cc:91-110 | a dotted suffix test on strings is a proper-suffix test on labels |
| DnsNames.SuffixIsLabelSuffix | ios/ExternalLibraries/boringssl-master/pki/name_constraints.cc:91-110 | a string suffix that starts at a label boundary is exactly a suffix of the label list |
| DnsNames.FullMatchExact | ios/ExternalLibraries/boringssl-master/pki/name_constraints.cc:57-113 | for all domains and constraints: full mode means that every host x.d is matched, if and only if the constraint does not spell out *.d itself |
| DnsNames.FullMatchIsEveryExpansion | ios/ExternalLibraries/boringssl-master/pki/name_constraints.cc:57-113 | for constraints without a star, full mode matches *.d exactly when every host x.d is matched |
| DnsNames.PartialMatchExact | ios/ExternalLibraries/boringssl-master/pki/name_constraints.cc:57-113 | for all domains and constraints: partial mode means that some host x.d is matched, if and only if the constraint does not spell out *.d and either d is not empty once its final dot is gone or the constraint spells out no host of d |
| DnsNames.SpelledWildcardEscapes | ios/ExternalLibraries/boringssl-master/pki/name_constraints.cc:57-113 | an instance of the exception to both: a constraint that spells out the wildcard is matched by it in both modes, and by none of its hosts |
| DnsNames.HostInSubtree | ios/ExternalLibraries/boringssl-master/pki/name_constraints.cc:57-113 | a host w.d is in a subtree exactly when the constraint covers the domain d or spells out that host |
| DnsNames.CaseIgnored | ios/ExternalLibraries/boringssl-master/pki/name_constraints.cc:57-113 | names and constraints that agree up to the case of ASCII letters match alike, in either mode |
| DnsNames.FinalDotIgnored | ios/ExternalLibraries/boringssl-master/pki/name_constraints.cc:64-76 | one final dot on the name or the constraint changes no match, in either mode |
| Rfc822.IsAllowedRfc822LocalPart | ios/ExternalLibraries/boringssl-master/pki/name_constraints.cc:184-198 | accepts exactly the non-empty local parts over the permitted characters |
| Rfc822.IsAllowedRfc822Domain | ios/ExternalLibraries/boringssl-master/pki/name_constraints.cc:205-215 | accepts exactly the non-empty domains over letters, digits, dash and dot |
| Rfc822.LocalPartExactly | ios/ExternalLibraries/boringssl-master/pki/name_constraints.cc:184-198 | a local part is printable ASCII without the specials of RFC 5322, the dot aside |
| Rfc822.DomainExactly | ios/ExternalLibraries/boringssl-master/pki/name_constraints.cc:205-215 | the characters of a domain by code point |
| Rfc822.Rfc822NameMatches | ios/ExternalLibraries/boringssl-master/pki/name_constraints.cc:218-274 | matches by the one mailbox, host or domain form the constraint text denotes; text that denotes none permits nothing and excludes everything |
| Rfc822.DenotesUnique | ios/ExternalLibraries/boringssl-master/pki/name_constraints.cc:218-274 | a constraint text denotes at most one of the three forms |
| Rfc822.MatchesExactly | ios/ExternalLibraries/boringssl-master/pki/name_constraints.cc:218-274 | a constraint l@d matches that mailbox, one without at sign every mailbox at that host, one with a leading dot every mailbox in a domain that ends so, domains up to case; any other text excludes all and permits none |
| Rfc822.IgnoringCaseExcludesMore | ios/ExternalLibraries/boringssl-master/pki/name_constraints.cc:218-274 | ignoring the case of the local part never loses a match |
| NameConstraints.ParseGeneralSubtrees | ios/ExternalLibraries/boringssl-master/pki/name_constraints.cc:121-174 | accepts exactly the well-formed lists of bases without minimum or maximum and adds all their names in order |
| NameConstraints.ParseField | ios/ExternalLibraries/boringssl-master/pki/name_constraints.cc:321-344 | an optional field adds exactly its names, and its absence or malformation is told apart |
| NameConstraints.NameConstraints.Parse | ios/ExternalLibraries/boringssl-master/pki/name_constraints.cc:303-363 | succeeds exactly on a well-formed extension with at least one field; the subtrees hold its names and the type bits those present, limited to supported types when not critical |
| NameConstraints.NameConstraints.IsPermittedRfc822Name | ios/ExternalLibraries/boringssl-master/pki/name_constraints.cc:529-633 | permitted means: a parsable mailbox that no excluded and, if there are any, some permitted constraint matches; one comparison per constraint at most |
| NameConstraints.NameConstraints.IsPermittedDNSName | ios/ExternalLibraries/boringssl-master/pki/name_constraints.cc:635-661 | no excluded constraint matches partially, and some permitted one matches fully if there is one |
| NameConstraints.NameConstraints.IsPermittedDirectoryName | ios/ExternalLibraries/boringssl-master/pki/name_constraints.cc:663-684 | in no excluded subtree, and in some permitted one if there is one |
| NameConstraints.NameConstraints.IsPermittedIP | ios/ExternalLibraries/boringssl-master/pki/name_constraints.cc:686-708 | in no excluded range, and in some permitted one if there is one |
| NameConstraints.NameConstraints.AreAltNamesPermitted | ios/ExternalLibraries/boringssl-master/pki/name_constraints.cc:428-480 | all alternative names of all kinds are permitted and no unsupported constrained kind is present; comparisons are bounded by names times constraints of each kind |
| NameConstraints.NameConstraints.AreEmailsPermitted | ios/ExternalLibraries/boringssl-master/pki/name_constraints.cc:408-498 | without alternative names, every mailbox in the subject is permitted when mailboxes are constrained |
| NameConstraints.NameConstraints.IsPermittedCert | ios/ExternalLibraries/boringssl-master/pki/name_constraints.cc:365-527 | appends exactly the verdict on the names presented, and compares at most 2^20 times for alternative names |
| NameConstraints.WorkLimitExact | ios/ExternalLibraries/boringssl-master/pki/name_constraints.cc:400-406 | the wrapped multiply-and-divide test rejects exactly when the true product exceeds 2^20, for all 64-bit counts |
| NameConstraints.SanWorkWithin | ios/ExternalLibraries/boringssl-master/pki/name_constraints.cc:378-406 | the comparisons of the four loops together stay within the product compared with the limit |
| NameConstraintsLaws.WildcardSoundness | ios/ExternalLibraries/boringssl-master/pki/name_constraints.cc:635-661 | if *.d is permitted, so is every host x.d, for all excluded lists and all permitted lists without a star, d not empty after its final dot |
| NameConstraintsLaws.WildcardSoundExact | ios/ExternalLibraries/boringssl-master/pki/name_constraints.cc:635-661 | for a permitted *.d and any lists, stars included: every host x.d is permitted exactly when, if DNS names are constrained at all, some permitted constraint covers d itself |
| NameConstraintsLaws.WildcardSoundnessNeedsDomain | ios/ExternalLibraries/boringssl-master/pki/name_constraints.cc:635-661 | soundness holds for all lists without stars if and only if d is not empty after its final dot |
| NameConstraintsLaws.ExcludingTightens | ios/ExternalLibraries/boringssl-master/pki/name_constraints.cc:365-527 | a certificate accepted under more excluded names and more type bits is accepted under fewer, work limit included |
| NameConstraintsLaws.ExcludedSubtreeTightens | ios/ExternalLibraries/boringssl-master/pki/name_constraints.cc:303-527 | inserting one excluded subtree anywhere in an extension never turns a rejected certificate into an accepted one |
| NameConstraintsLaws.InsertedWithin | ios/ExternalLibraries/boringssl-master/pki/general_names.cc:98-217 | inserting one more name into a parsed list only adds to lists and bits |
| NameConstraintsLaws.BuiltListsHold | ios/ExternalLibraries/boringssl-master/pki/general_names.cc:98-217 | the lists made of parsed names hold exactly the names of their kinds, and the bits say exactly which kinds occur |
| NameConstraintsLaws.AcceptedMailboxesPermitted | ios/ExternalLibraries/boringssl-master/pki/name_constraints.cc:365-527 | in an accepted certificate every alternative mailbox is permitted once any mailbox constraint exists: the type gate lets none slip by |
| NameConstraintsLaws.AcceptedExactly | ios/ExternalLibraries/boringssl-master/pki/name_constraints.cc:365-527 | a certificate is accepted if and only if the work limit holds and every alternative host, directory name, address and, where mailboxes are constrained, mailbox is clear of all excluded names of its kind and in a permitted one if there are any, none is of a constrained kind without matching, and the subject passes likewise unless empty beside alternative names; stated over the names of the extension and the certificate |
| NameConstraintsLaws.CriticalUnsupportedRejects | ios/ExternalLibraries/boringssl-master/pki/name_constraints.cc:428-444 | a critical constraint of a kind the code cannot check rejects every certificate with a name of that kind |
| GeneralNames.ParseGeneralName | ios/ExternalLibraries/boringssl-master/pki/general_names.cc:98-217 | stores an acceptable name in the list of its tag and sets its bit, leaves the lists alone otherwise, and keeps every bit equal to its list being non-empty |
| GeneralNames.ParseIPAddress | ios/ExternalLibraries/boringssl-master/pki/general_names.cc:161-205 | an address, or an address with a valid netmask of the same size, of the expected kind |
| GeneralNames.AddByTag | ios/ExternalLibraries/boringssl-master/pki/general_names.cc:109-215 | each of the nine tags stores into its own list and sets its own bit; any other tag is an error and stores nothing |
| GeneralNames.AddedKeepsBits | ios/ExternalLibraries/boringssl-master/pki/general_names.cc:98-217 | adding any name keeps all nine bits in step with the lists |
| GeneralNames.CreateFromValue | ios/ExternalLibraries/boringssl-master/pki/general_names.cc:68-96 | all names in order, or nothing when one is unacceptable; the result has bits that agree |
| GeneralNames.BuiltListsAgree | ios/ExternalLibraries/boringssl-master/pki/general_names.cc:98-217 | lists built from any parsed names have bits that agree |
| NameEncodings.NameExactly | ios/ExternalLibraries/boringssl-master/pki/general_names.cc:98-217 | octets are read as a name if and only if they hold it: each of the nine forms by its first octet, text in ASCII, an address of 4 or 16 octets alone or with a mask of ones then zeros |
| NameEncodings.ExtensionNamesExactly | ios/ExternalLibraries/boringssl-master/pki/name_constraints.cc:303-363 | an extension is read as these names if and only if it is one sequence of a permitted field, an excluded one or both, each of one subtree or more without minimum and maximum, and nothing else |
| IpUtil.IsValidNetmask | ios/ExternalLibraries/boringssl-master/pki/ip_util.cc:9-34 | accepts exactly the 4- and 16-octet masks that are k ones followed by zeros |
| IpUtil.OctetTest | ios/ExternalLibraries/boringssl-master/pki/ip_util.cc:15-22 | the complement-and-increment test on one octet holds exactly for ones followed by zeros |
| IpUtil.IPAddressMatchesWithNetmask | ios/ExternalLibraries/boringssl-master/pki/ip_util.cc:36-47 | same lengths, and equal in every bit position the mask selects |
| IpUtil.MaskedOctets | ios/ExternalLibraries/boringssl-master/pki/ip_util.cc:36-47 | comparing ANDed octets compares the selected bits |
| IpUtil.MatchIsSharedPrefix | ios/ExternalLibraries/boringssl-master/pki/ip_util.cc:36-47 | under a mask of k ones a match is agreement of the first k bits |
| IpUtil.PrefixLengthUnique | ios/ExternalLibraries/boringssl-master/pki/ip_util.cc:9-34 | a mask has one prefix length |
| IpUtil.HostBitsIrrelevant | ios/ExternalLibraries/boringssl-master/pki/ip_util.cc:36-47 | bits of the constraint address behind the prefix do not matter |
| IpUtil.RangesNestedOrDisjoint | ios/ExternalLibraries/boringssl-master/pki/ip_util.cc:36-47 | any two ranges of one address size are nested or disjoint |
| InputOrder.ByteReader.ReadByte | ios/ExternalLibraries/boringssl-master/pki/input.cc:18-25 | takes one octet off the front, or fails and changes nothing |
| InputOrder.LessThan | ios/ExternalLibraries/boringssl-master/pki/input.h:133-149 | the two-position loop is lexicographic order, a proper prefix being smaller |
| InputOrder.Asymmetric | ios/ExternalLibraries/boringssl-master/pki/input.h:133-149 | never less both ways |
| InputOrder.Irreflexive | ios/ExternalLibraries/boringssl-master/pki/input.h:133-149 | no input is less than itself |
| InputOrder.Transitive | ios/ExternalLibraries/boringssl-master/pki/input.h:133-149 | the order is transitive |
| InputOrder.Total | ios/ExternalLibraries/boringssl-master/pki/input.h:133-149 | inputs that are unordered are equal octet for octet |
| InputOrder.LessConcat | ios/ExternalLibraries/boringssl-master/pki/input.h:133-149 | strings built from parts of equal length are ordered by the first part, then the second |
| SortedSets.Sort | ios/ExternalLibraries/boringssl-master/pki/certificate_policies.cc:210 | sorting gives a sorted permutation |
| SortedSets.SortedPermutationUnique | ios/ExternalLibraries/boringssl-master/pki/certificate_policies.cc:210 | the sorted permutation is unique because ties are equal inputs |
| SortedSets.AdjacentFind | ios/ExternalLibraries/boringssl-master/pki/certificate_policies.cc:211-213 | the first equal neighbours, or the end |
| SortedSets.NoEqualNeighbours | ios/ExternalLibraries/boringssl-master/pki/certificate_policies.cc:208-217 | a sorted list without equal neighbours is strictly increasing |
| SortedSets.DistinctMultiset | ios/ExternalLibraries/boringssl-master/pki/certificate_policies.cc:208-217 | no duplicate means that every element occurs at most once |
| SortedSets.StrictIsDistinct | ios/ExternalLibraries/boringssl-master/pki/certificate_policies.cc:208-217 | a strictly increasing list has no duplicate |
| SortedSets.DistinctPermutes | ios/ExternalLibraries/boringssl-master/pki/certificate_policies.cc:208-217 | being free of duplicates does not depend on order |
| SortedSets.SetIntersection | ios/ExternalLibraries/boringssl-master/pki/crl.cc:44-46 | the merge of sorted ranges keeps exactly the common elements |
| Policies.ParsePolicyQualifiers | ios/ExternalLibraries/boringssl-master/pki/certificate_policies.cc:42-93 | accepts exactly one or more well-formed qualifiers, of known kinds when restricted, and returns them in order |
| Policies.ParsePolicy | ios/ExternalLibraries/boringssl-master/pki/certificate_policies.cc:160-205 | one policy: an identifier and optional qualifiers, restricted for anyPolicy, and nothing behind them |
| Policies.CollectPolicies | ios/ExternalLibraries/boringssl-master/pki/certificate_policies.cc:158-206 | the loop collects the policies in order, with their identifiers, or fails on any malformed one |
| Policies.ParseCertificatePoliciesExtension | ios/ExternalLibraries/boringssl-master/pki/certificate_policies.cc:131-220 | accepts exactly the well-formed lists without a repeated policy; the identifiers come out as a strictly increasing permutation of those read, the informations in order |
| Encodings.PoliciesExactly | ios/ExternalLibraries/boringssl-master/pki/certificate_policies.cc:131-206 | policies are read if and only if the octets are the encoding of one policy or more, with known qualifiers only where restricted and always under anyPolicy |
| Der.ReadElement | ios/ExternalLibraries/boringssl-master/crypto/bytestring/cbs.c:307-406 | an element is a non-empty prefix of the input and its contents are shorter than it |
| Der.Base128 | ios/ExternalLibraries/boringssl-master/crypto/bytestring/cbs.c:244-266 | the octets of a base-128 integer are a non-empty prefix |
| Der.ReadTagNumber | ios/ExternalLibraries/boringssl-master/crypto/bytestring/cbs.c:268-305 | the tag octets are a non-empty prefix |
| Der.ReadLength | ios/ExternalLibraries/boringssl-master/crypto/bytestring/cbs.c:340-403 | the length octets are a non-empty prefix |
| Der.SelfDelimiting | ios/ExternalLibraries/boringssl-master/crypto/bytestring/cbs.c:307-406 | what follows an element never changes how it is read |
| Der.ElementsCover | ios/ExternalLibraries/boringssl-master/pki/parser.cc:16-40 | the elements read one after the other cover the input, none added and none dropped |
| Der.ElementsConcat | ios/ExternalLibraries/boringssl-master/pki/parser.cc:16-40 | the elements of a concatenation are the elements of its parts |
| DerEncoding.ElementExactly | ios/ExternalLibraries/boringssl-master/crypto/bytestring/cbs.c:307-406 | an element is read if and only if the octets start with its one DER encoding: minimal tag, minimal length of at most four octets |
| DerEncoding.Base128Exactly | ios/ExternalLibraries/boringssl-master/crypto/bytestring/cbs.c:244-266 | a base-128 integer below 2^64 is read if and only if the octets start with its one encoding |
| DerEncoding.ElementsExactly | ios/ExternalLibraries/boringssl-master/pki/parser.cc:16-40 | octets split into these elements if and only if they are their encodings one behind the other |
| NameEncodings.TagOctets | ios/ExternalLibraries/boringssl-master/include/openssl/bytestring.h:196-238 | the identifier octets of the tags in use |
| Der.Parser.PeekTagAndValue | ios/ExternalLibraries/boringssl-master/pki/parser.cc:16-29 | looks at the next element without consuming it |
| Der.Parser.ReadTagAndValue | ios/ExternalLibraries/boringssl-master/pki/parser.cc:51-57 | yields tag and contents of the next element and consumes it |
| Der.Parser.ReadRawTLV | ios/ExternalLibraries/boringssl-master/pki/parser.cc:42-49 | yields all octets of the next element and consumes them |
| Der.Parser.ReadTag | ios/ExternalLibraries/boringssl-master/pki/parser.cc:94-103 | consumes the next element exactly when it has the tag |
| Der.Parser.ReadOptionalTag | ios/ExternalLibraries/boringssl-master/pki/parser.cc:59-77 | yields a value exactly when the next element has the tag, consumes nothing otherwise, and fails on malformed octets |
| Der.Parser.ReadConstructed | ios/ExternalLibraries/boringssl-master/pki/parser.cc:112-122 | a parser over the contents of the next element when it has that constructed tag |
| Der.Parser.ReadSequence | ios/ExternalLibraries/boringssl-master/pki/parser.cc:124-126 | a parser over the contents of the next element when it is a sequence |
| Times.DecimalStringToUint | ios/ExternalLibraries/boringssl-master/pki/parse_values.cc:50-64 | reads exactly so many digits and yields their value modulo the size of the unsigned type |
| Times.EncodeGeneralizedTime | ios/ExternalLibraries/boringssl-master/pki/encode_values.cc:74-85 | succeeds exactly when every field fits its digits, and then writes the 15-octet text |
| Times.EncodeUTCTime | ios/ExternalLibraries/boringssl-master/pki/encode_values.cc:87-106 | the same for years 1950 to 2049 and the 13-octet text |
| Times.WriteFourDigit | ios/ExternalLibraries/boringssl-master/pki/encode_values.cc:16-28 | writes the four digits of the value at the offset and nothing else |
| Times.WriteTwoDigit | ios/ExternalLibraries/boringssl-master/pki/encode_values.cc:30-37 | writes the two digits of the value at the offset and nothing else |
| Times.ParseGeneralizedTime | ios/ExternalLibraries/boringssl-master/pki/parse_values.cc:344-364 | accepts exactly the texts of valid times, each as the time it is the text of |
| Times.ReadTail | ios/ExternalLibraries/boringssl-master/pki/parse_values.cc:320-331 | month to seconds and the zone, up to the end of the input, in exactly one way |
| Times.ParseUTCTime | ios/ExternalLibraries/boringssl-master/pki/parse_values.cc:317-342 | accepts exactly the texts of valid times from 1950 to 2049 |
| Times.GeneralizedTextInjective | ios/ExternalLibraries/boringssl-master/pki/encode_values.cc:74-85 | no two times share a text |
| Times.UTCTextInjective | ios/ExternalLibraries/boringssl-master/pki/encode_values.cc:87-106 | within the window no two times share a text |
| Times.UTCTextAmbiguous | ios/ExternalLibraries/boringssl-master/pki/parse_values.cc:317-342 | outside the window a text cannot be told from the one a century away |
| Times.GeneralizedTextExactly | ios/ExternalLibraries/boringssl-master/pki/encode_values.cc:74-85 | the GeneralizedTime text is four digits of the year, pairs of digits and the letter Z |
| Times.UTCTextExactly | ios/ExternalLibraries/boringssl-master/pki/encode_values.cc:87-106 | the UTCTime text is the fields in pairs of ASCII digits and the letter Z |
| Times.RoundTripGeneralized | ios/ExternalLibraries/boringssl-master/pki/parse_values.cc:344-364 | encoding then parsing gives back every valid time, exactly for years below 10000 |
| Times.RoundTripUTC | ios/ExternalLibraries/boringssl-master/pki/parse_values.cc:295-342 | encoding then parsing gives back every valid time, exactly for years 1950 to 2049 |
| Times.ReencodeGeneralized | ios/ExternalLibraries/boringssl-master/pki/encode_values.cc:74-85 | whatever is accepted re-encodes to the same octets |
| Times.ReencodeUTC | ios/ExternalLibraries/boringssl-master/pki/encode_values.cc:87-106 | the same for UTCTime |
| Times.TextOrderIsTimeOrder | ios/ExternalLibraries/boringssl-master/pki/parse_values.cc:299-303 | octet order of the 15-octet texts is the order of the times |
| Times.UTCTextOrderExact | ios/ExternalLibraries/boringssl-master/pki/parse_values.cc:299-303 | within the window octet order of two UTCTime texts is the order of the times if and only if both years lie on the same side of 2000 |
| Times.UTCTextOrderDiffers | ios/ExternalLibraries/boringssl-master/pki/parse_values.cc:299-303 | an instance: 2049 sorts below 1950 |
| PosixTime.UtcRoundTrip | ios/ExternalLibraries/boringssl-master/crypto/asn1/posix_time.c:86-148 | every valid time of the years 0 to 9999 has a POSIX time in the range and is what that converts back to |
| PosixTime.PosixRoundTrip | ios/ExternalLibraries/boringssl-master/crypto/asn1/posix_time.c:113-148 | every second of the range converts to a valid time and is what that time converts back to: the two conversions are inverse bijections |
| PosixTime.PosixOrder | ios/ExternalLibraries/boringssl-master/crypto/asn1/posix_time.c:86-108 | POSIX times are ordered as the times they stand for |
| PosixTime.ValidConverts | ios/ExternalLibraries/boringssl-master/pki/encode_values.cc:57-72 | up to the year 9999 a time converts if and only if it is valid for the certificate parser: both files keep one calendar |
| PosixTime.GeneralizedRoundTrip | ios/ExternalLibraries/boringssl-master/pki/encode_values.cc:41-72 | a valid time comes back from its POSIX time, a leap second as the second before it |
| PosixTime.EverySecondIsATime | ios/ExternalLibraries/boringssl-master/pki/encode_values.cc:41-72 | every second from the year 0 to 9999 is the POSIX time of the valid time it converts to |
| PosixTime.GeneralizedOrder | ios/ExternalLibraries/boringssl-master/pki/encode_values.cc:57-72 | the order of the times of certificates is the order of their POSIX times, leap seconds aside |
| Integers.IsValidInteger | ios/ExternalLibraries/boringssl-master/crypto/bytestring/cbs.c:656-673 | accepts exactly the minimal two's complement encodings; the valid non-negative ones are the DER octets of a number |
| Integers.GetUnsignedIntegerLength | ios/ExternalLibraries/boringssl-master/pki/parse_values.cc:138-149 | for every input: nothing for the empty one, otherwise the octets without one leading zero in front of others, whose value is that of the whole; for the DER octets of a number the fewest that write it |
| Integers.ParseUint64 | ios/ExternalLibraries/boringssl-master/pki/parse_values.cc:181-203 | accepts exactly the DER octets of the numbers below 2^64, each as its number |
| Integers.PrefixFits | ios/ExternalLibraries/boringssl-master/pki/parse_values.cc:181-203 | the shift of the loop never loses a bit, not even on nine octets |
| Integers.ShiftInOctet | ios/ExternalLibraries/boringssl-master/pki/parse_values.cc:193-200 | shift and OR on 64 bits append one octet to the number |
| Integers.DerOctetsInjective | ios/ExternalLibraries/boringssl-master/pki/parse_values.cc:169-203 | each number has exactly one encoding |
| Integers.ParseUint8 | ios/ExternalLibraries/boringssl-master/pki/parse_values.cc:205-218 | accepts exactly the DER octets of the numbers below 256 |
| ModExp.ModExp | ios/ExternalLibraries/boringssl-master/fuzz/bn_mod_exp.cc:28-58 | terminates with a result in [0, m) congruent to a^p modulo m, for a of either sign, p >= 0 and m >= 1, m = 1 and p = 0 included |
| ModExp.ResidueUnique | ios/ExternalLibraries/boringssl-master/fuzz/bn_mod_exp.cc:28-58 | that result is the only one |
| Strings.EqualNoCase | ios/ExternalLibraries/boringssl-master/pki/string_util.cc:27-32 | comparing without case is comparing lower-cased strings |
| Strings.NoCaseExactly | ios/ExternalLibraries/boringssl-master/pki/string_util.cc:27-37 | two strings compare equal without case exactly when they agree position by position but for the case of ASCII letters, given by code points |
| Strings.SplitString | ios/ExternalLibraries/boringssl-master/pki/string_util.cc:92-116 | the pieces between separators, none for the empty string |
| Strings.JoinSplit | ios/ExternalLibraries/boringssl-master/pki/string_util.cc:92-116 | joining the pieces gives the string back |
| Strings.SplitExactly | ios/ExternalLibraries/boringssl-master/pki/string_util.cc:92-116 | the pieces are the only list of separator-free strings that joins to the string |
| OidText.OidRoundTrip | ios/ExternalLibraries/boringssl-master/crypto/bytestring/cbs.c:709-753 | dotted text determines the encoding of an object identifier, so identifiers with different octets have different text |
| OidText.Base128Unique | ios/ExternalLibraries/boringssl-master/crypto/bytestring/cbs.c:244-266 | what a base-128 integer was read from is its only encoding |
| OidText.OidTextChars | ios/ExternalLibraries/boringssl-master/crypto/bytestring/cbs.c:709-753 | dotted text starts with a digit and holds digits and dots only |
| DerEncoding.OidTextExactly | ios/ExternalLibraries/boringssl-master/crypto/bytestring/cbs.c:709-753 | octets have a text if and only if they encode two arcs or more, the first 0, 1 or 2 and the second below 40 under 0 and 1; the text is these arcs in decimal |
| ParseName.EscapeValue | ios/ExternalLibraries/boringssl-master/pki/parse_name.cc:117-136 | the escaping loop gives the escaped text and notices any octet that is not printable |
| ParseName.AsRFC2253String | ios/ExternalLibraries/boringssl-master/pki/parse_name.cc:81-147 | the text of an attribute, or failure for an unprintable type or value |
| ParseName.ConvertRdn | ios/ExternalLibraries/boringssl-master/pki/parse_name.cc:212-223 | the texts of the attributes joined by plus signs |
| ParseName.ConvertToRFC2253 | ios/ExternalLibraries/boringssl-master/pki/parse_name.cc:208-232 | the text of a name, last RDN first, separators only between texts that are there |
| ParseName.ReadRdn | ios/ExternalLibraries/boringssl-master/pki/parse_name.cc:149-180 | accepts exactly sets of one or more well-formed attributes |
| ParseName.ReadAttribute | ios/ExternalLibraries/boringssl-master/pki/parse_name.cc:150-173 | a type, one more element, and nothing else |
| ParseName.ParseNameValue | ios/ExternalLibraries/boringssl-master/pki/parse_name.cc:191-206 | accepts exactly well-formed names, and none of the RDNs it returns is empty |
| Encodings.NameExactly | ios/ExternalLibraries/boringssl-master/pki/parse_name.cc:149-206 | a name is read if and only if the octets are its encoding and no RDN is empty |
| Rfc2253.UnescapeOctet | ios/ExternalLibraries/boringssl-master/pki/parse_name.cc:117-136 | reading one escaped octet gives the octet, whichever way it was written |
| Rfc2253.UnescapeEscaped | ios/ExternalLibraries/boringssl-master/pki/parse_name.cc:117-136 | escaped text is read back octet for octet up to the separator |
| Rfc2253.UnhexEncoded | ios/ExternalLibraries/boringssl-master/pki/parse_name.cc:108-142 | hexadecimal text is read back up to the first other character |
| Strings.HexExactly | ios/ExternalLibraries/boringssl-master/pki/string_util.cc:75-83 | each octet is two upper-case hexadecimal digits, the high half first |
| Rfc2253.ValueRoundTrip | ios/ExternalLibraries/boringssl-master/pki/parse_name.cc:108-143 | the value octets are read back from escaped or hexadecimal text, up to the separator |
| Rfc2253.EscapedIsNotHex | ios/ExternalLibraries/boringssl-master/pki/parse_name.cc:119-123 | escaped text never looks like hexadecimal text |
| Rfc2253.TypeRoundTrip | ios/ExternalLibraries/boringssl-master/pki/parse_name.cc:84-108 | short names and dotted numbers never collide and the type is read back |
| Rfc2253.AttributeRoundTrip | ios/ExternalLibraries/boringssl-master/pki/parse_name.cc:81-147 | type and value are read back from the text of an attribute |
| Rfc2253.RdnRoundTrip | ios/ExternalLibraries/boringssl-master/pki/parse_name.cc:213-223 | all attributes of an RDN are read back in order |
| Rfc2253.NameRoundTrip | ios/ExternalLibraries/boringssl-master/pki/parse_name.cc:208-232 | every RDN, type and value is read back from the text of a name without empty RDNs |
| Rfc2253.NameRoundTripExact | ios/ExternalLibraries/boringssl-master/pki/parse_name.cc:208-232 | the names that survive printing are exactly those without an empty RDN |
| Rfc2253.EmptyRdnInvisible | ios/ExternalLibraries/boringssl-master/pki/parse_name.cc:224-227 | an empty RDN at the end does not show in the text, so no decoder could do better |
| Rfc2253.SameTextSameName | ios/ExternalLibraries/boringssl-master/pki/parse_name.cc:208-232 | names with the same text hold the same types and octets |
| Rfc2253.ParsedNameRoundTrip | ios/ExternalLibraries/boringssl-master/pki/parse_name.cc:191-232 | whatever ParseNameValue accepts survives printing |
| Rfc2253.NamePrintable | ios/ExternalLibraries/boringssl-master/pki/parse_name.h:104-106 | the text is printable ASCII |
| NameGrammar.NameInGrammar | ios/ExternalLibraries/boringssl-master/pki/parse_name.cc:208-232 | the text of a name without empty RDNs is in the grammar if and only if no attribute without a short name has empty contents |
| NameGrammar.AttributeInGrammar | ios/ExternalLibraries/boringssl-master/pki/parse_name.cc:81-147 | the text of an attribute is in the grammar if and only if it is not a bare number sign for empty contents |
| NameGrammar.PrintsExactly | ios/ExternalLibraries/boringssl-master/pki/parse_name.cc:81-147 | an attribute prints if and only if its type has dotted text, or a short name and a value that spells octets; the value is in hexadecimal if and only if there is no short name or a teletex octet is not printable, and is read back otherwise |
| NameGrammar.NamePrints | ios/ExternalLibraries/boringssl-master/pki/parse_name.cc:208-232 | a name prints if and only if all its attributes do |
| NameGrammar.EscapedInGrammar | ios/ExternalLibraries/boringssl-master/pki/parse_name.cc:117-136 | the text of every value is a string of the grammar of section 3 of RFC 4514: each reserved character stands behind its own backslash, as do a number sign in front and a blank at either end |
| NameGrammar.BareExactly | ios/ExternalLibraries/boringssl-master/pki/parse_name.cc:117-136 | a value is its own text if and only if each octet is printable, none of the seven reserved characters, no number sign in front and no blank at an end: nothing else is escaped |
| NameGrammar.StrictExactly | ios/ExternalLibraries/boringssl-master/pki/parse_name.cc:117-136 | the printed value is in the stricter grammar of section 3 of RFC 2253 if and only if the value holds no equals sign, no number sign but in front, and no blank at either end |
| NameGrammar.ShortNames | ios/ExternalLibraries/boringssl-master/pki/parse_name.cc:84-102 | each short name belongs to one object identifier, given by its arcs |
| Extensions.ParseExtension | ios/ExternalLibraries/boringssl-master/pki/parse_certificate.cc:611-660 | accepts exactly one sequence of identifier, TRUE or nothing, and value |
| Encodings.ExtensionExactly | ios/ExternalLibraries/boringssl-master/pki/parse_certificate.cc:611-660 | one extension is read if and only if the octets are its encoding, the default of critical left out |
| Extensions.UnconsumedExtensions.Parse | ios/ExternalLibraries/boringssl-master/pki/parse_certificate.cc:662-709 | accepts exactly non-empty lists of well-formed extensions without a repeated identifier, and maps each identifier to its extension |
| Encodings.ExtensionsExactly | ios/ExternalLibraries/boringssl-master/pki/parse_certificate.cc:662-709 | extensions are read if and only if the octets are the encoding of a non-empty list without a repeated identifier |
| Extensions.UnconsumedExtensions.Consume | ios/ExternalLibraries/boringssl-master/pki/parse_certificate.cc:711-723 | returns the extension if there is one and takes just that one out |
| Extensions.UnconsumedExtensions.HasCritical | ios/ExternalLibraries/boringssl-master/pki/ocsp.cc:783-795 | finds a critical extension other than the one excepted exactly when there is one |
| Extensions.CriticalLeft | ios/ExternalLibraries/boringssl-master/pki/crl.cc:602-607 | a critical extension is left exactly when the list has one under another identifier |
| Crl.ReadUTCOrGeneralizedTime | ios/ExternalLibraries/boringssl-master/pki/parse_certificate.cc:292-310 | consumes an element that is the text of a valid time in either form |
| Crl.TimeExactly | ios/ExternalLibraries/boringssl-master/pki/parse_certificate.cc:292-310 | an element is a time if and only if its octets are the digits of a valid date and time and Z, 1950 to 2049 in the short form |
| Crl.ReadEntry | ios/ExternalLibraries/boringssl-master/pki/crl.cc:336-394 | one entry: its serial number when the entry is well formed and may be used, nothing otherwise |
| Crl.GetCRLStatusForCert | ios/ExternalLibraries/boringssl-master/pki/crl.cc:306-402 | good without a list; unknown if the list is malformed or any entry anywhere is malformed, has a critical extension or has extensions under version 1; otherwise revoked exactly when the serial number occurs |
| Crl.StatusExactly | ios/ExternalLibraries/boringssl-master/pki/crl.cc:306-402 | stated by the elements of the field: unknown if and only if it is not one non-empty sequence or some element is not a number, a time and, under version 2, well-formed extensions none of which is critical; otherwise revoked exactly for the serial numbers that come first in an element |
| Encodings.SequenceExactly | ios/ExternalLibraries/boringssl-master/pki/crl.cc:306-334 | the field of revoked entries is read as these elements if and only if it is the encoding of one sequence of them, at least one, and nothing else |
| Crl.CriticalEntryRefuses | ios/ExternalLibraries/boringssl-master/pki/crl.cc:378-382 | one critical extension in one entry anywhere leaves no serial number an answer |
| Crl.StatusIgnoresOrder | ios/ExternalLibraries/boringssl-master/pki/crl.cc:335-396 | two revokedCertificates fields with the same entries in any two orders give every certificate the same answer |
| Crl.MoreEntriesOnlyTighten | ios/ExternalLibraries/boringssl-master/pki/crl.cc:335-396 | one more entry at any place of the field makes the answer unknown if it is bad, revoked if it names the serial number, and changes nothing otherwise |
| Crl.ContainsExactMatchingName | ios/ExternalLibraries/boringssl-master/pki/crl.cc:39-47 | finds a common name exactly when there is one |
| CheckCrl.NormalizeNameTLV | ios/ExternalLibraries/boringssl-master/pki/crl.cc:29-37 | one sequence, normalized, with nothing behind it |
| CheckCrl.CheckIdp | ios/ExternalLibraries/boringssl-master/pki/crl.cc:529-599 | the distribution point names meet and the kind of certificate is covered |
| CheckCrl.CheckExtensions | ios/ExternalLibraries/boringssl-master/pki/crl.cc:516-608 | no critical extension besides an issuing distribution point, and that one covers the certificate |
| CheckCrl.FindSigner | ios/ExternalLibraries/boringssl-master/pki/crl.cc:622-667 | finds a signer exactly when a certificate above the target has the issuer's name, may sign CRLs and signed this one |
| CheckCrl.CheckCRL | ios/ExternalLibraries/boringssl-master/pki/crl.cc:407-671 | the list answers exactly when it applies to the certificate and was signed above it, and is unknown otherwise |
| CheckCrl.DefiniteExactly | ios/ExternalLibraries/boringssl-master/pki/crl.cc:407-671 | the answer is definite if and only if the list applies to the certificate, a certificate above the target that may sign CRLs signed it under the list's own algorithm and the issuer's name, and none of its entries is bad |
| CheckCrl.AnswerExactly | ios/ExternalLibraries/boringssl-master/pki/crl.cc:407-671 | a definite answer is given if and only if the list names one algorithm twice, is current, by the issuer of the certificate, holds only extensions that fit or are not critical, and is signed above the target; then it is what the entries say |
| CheckCrl.ScopeRespected | ios/ExternalLibraries/boringssl-master/pki/crl.cc:516-608 | behind a definite answer no critical extension was passed over and the kind of certificate is the one the list is for |
| CheckCrl.OnlyIssuersCount | ios/ExternalLibraries/boringssl-master/pki/crl.cc:612-667 | nothing below the target in the chain counts |
| Ocsp.GetRevocationStatusForCert | ios/ExternalLibraries/boringssl-master/pki/ocsp.cc:801-864 | unknown if any response is bad; otherwise the strictest current matching status; the details tell exactly whether there is a current, only a stale, or no matching response |
| Ocsp.StopsAt | ios/ExternalLibraries/boringssl-master/pki/ocsp.cc:810-836 | the first bad response ends the search with an unknown status and has the last word on the details |
| Ocsp.StrictestIsMaximum | ios/ExternalLibraries/boringssl-master/pki/ocsp.cc:852-860 | the status is one of the matching current ones and none is stricter (revoked, then unknown, then good) |
| Ocsp.StatusIgnoresOrder | ios/ExternalLibraries/boringssl-master/pki/ocsp.cc:801-864 | any reordering of the responses gives the same status |
| Ocsp.DetailsDependOnOrder | ios/ExternalLibraries/boringssl-master/pki/ocsp.cc:810-836 | an instance: two responses, one malformed and one current, whose two orders give different details |
| Ocsp.DetailsOrderExact | ios/ExternalLibraries/boringssl-master/pki/ocsp.cc:801-864 | for all responses: the details are the same in every order if and only if none is bad, or one is malformed and all others are malformed or for other certificates, or none is malformed and all that are refused are refused for one reason |
| Ocsp.CheckExtensions | ios/ExternalLibraries/boringssl-master/pki/ocsp.cc:742-798 | reports malformed extensions or an unhandled critical one, the excepted identifier aside |
| Ocsp.IdentifiesOne | ios/ExternalLibraries/boringssl-master/pki/ocsp.cc:548-586 | with hashes that do not collide, one certificate identifier matches only certificates with one serial number, issuer name and issuer key |
| Ocsp.RespondersAgree | ios/ExternalLibraries/boringssl-master/pki/ocsp.cc:612-635 | with hashes that do not collide, all certificates one responder identifier matches have one key, or subjects that match one another |
| Ocsp.VerifyAuthorizedResponderCert | ios/ExternalLibraries/boringssl-master/pki/ocsp.cc:646-674 | signed by the issuer itself and marked for OCSP signing |
| Ocsp.VerifyOCSPResponseSignature | ios/ExternalLibraries/boringssl-master/pki/ocsp.cc:687-738 | signed by the issuer as responder, or by an enclosed certificate that is the responder and authorized |
| Ocsp.CheckOCSP | ios/ExternalLibraries/boringssl-master/pki/ocsp.cc:866-964 | status and details of the whole check: which check failed first, and a status only with data, certificates and signature in order |
| Ocsp.DefiniteNeedsSignature | ios/ExternalLibraries/boringssl-master/pki/ocsp.cc:955-963 | good or revoked only when signed by the responder the response names, which is the issuer or a certificate the issuer signed for OCSP signing, and then the details say provided |
| Ocsp.StatusExactly | ios/ExternalLibraries/boringssl-master/pki/ocsp.cc:866-964 | revoked if and only if a believed response is readable throughout and says so; good if and only if one says so and none says otherwise; believed, readable and saying are spelled out in terms of the parsers, hashes, dates and signatures |
| Ocsp.ReadableDetails | ios/ExternalLibraries/boringssl-master/pki/ocsp.cc:838-864 | with all responses readable the details say exactly whether one speaks of the certificate now, one is about it, or none is |
| Ocsp.UnreadableDetails | ios/ExternalLibraries/boringssl-master/pki/ocsp.cc:801-836 | the first unreadable response gives its own reason if its extensions are at fault and otherwise leaves the details of those before it |
| Ocsp.DetailsExactly | ios/ExternalLibraries/boringssl-master/pki/ocsp.cc:866-964 | which details stand for which failure before the responses are looked at, each if and only if |
| CpuInfo.Split | ios/ExternalLibraries/boringssl-master/crypto/cpu_arm_linux.h:54-67 | splits at the first separator even when an output is the input, and changes nothing when there is none |
| CpuInfo.GetDelimited | ios/ExternalLibraries/boringssl-master/crypto/cpu_arm_linux.h:73-84 | takes the first entry off and makes progress; fails exactly on the empty piece |
| CpuInfo.StringPiece.Trim | ios/ExternalLibraries/boringssl-master/crypto/cpu_arm_linux.h:87-96 | trims in place |
| CpuInfo.TrimmedIs | ios/ExternalLibraries/boringssl-master/crypto/cpu_arm_linux.h:87-96 | trimming takes blanks off both ends and nothing else |
| CpuInfo.TokensRejoin | ios/ExternalLibraries/boringssl-master/crypto/cpu_arm_linux.h:73-84 | the entries rejoin to the text, less exactly a separator at its end |
| CpuInfo.TokensFree | ios/ExternalLibraries/boringssl-master/crypto/cpu_arm_linux.h:73-84 | no entry holds a separator |
| CpuInfo.HasListItem | ios/ExternalLibraries/boringssl-master/crypto/cpu_arm_linux.h:123-131 | finds exactly the entries of the list |
| CpuInfo.TokenStands | ios/ExternalLibraries/boringssl-master/crypto/cpu_arm_linux.h:123-131 | a non-empty item without separators is an entry exactly when it stands between separators or ends |
| CpuInfo.ExtractField | ios/ExternalLibraries/boringssl-master/crypto/cpu_arm_linux.h:101-119 | the trimmed value of the first line whose trimmed key is the field, or failure without touching the output |
| CpuInfo.MatchLine | ios/ExternalLibraries/boringssl-master/crypto/cpu_arm_linux.h:106-116 | a line has the field exactly when the text before its first colon, trimmed, is the field |
| CpuInfo.FirstLineWins | ios/ExternalLibraries/boringssl-master/crypto/cpu_arm_linux.h:101-119 | the first line with the field decides |
| CpuInfo.NoFieldExactly | ios/ExternalLibraries/boringssl-master/crypto/cpu_arm_linux.h:101-119 | extraction fails if and only if no line has the field |
| CpuInfo.LineExactly | ios/ExternalLibraries/boringssl-master/crypto/cpu_arm_linux.h:87-116 | a line has the field with a value if and only if they are what spaces and tabs taken off both ends leave of the text before and behind its first colon |
| CpuInfo.HwCap2 | ios/ExternalLibraries/boringssl-master/crypto/cpu_arm_linux.h:135-156 | each of four bits is set exactly when its feature is listed |
| RefCount.StepIsAtomic | ios/ExternalLibraries/boringssl-master/crypto/refcount.c:30-59 | the step that ends a call changes the count as the whole call does in one piece, and returns what that returns |
| RefCount.RunIsSequential | ios/ExternalLibraries/boringssl-master/crypto/refcount.c:30-59 | every interleaving, spurious failures included, is equivalent to making its calls one at a time as saturating plus or minus one |
| RefCount.OneEffectPerCall | ios/ExternalLibraries/boringssl-master/crypto/refcount.c:30-59 | every call that is over took effect at exactly one step |
| RefCount.EndsUnlessChanged | ios/ExternalLibraries/boringssl-master/crypto/refcount.c:30-59 | a call can end with its next step unless the count changed since it was last read: only another thread's success makes a thread try again |
| RefCount.SaturatedForever | ios/ExternalLibraries/boringssl-master/crypto/refcount.c:33-51 | once at 0xffffffff the count never changes and no decrement returns one |
| RefCount.Balance | ios/ExternalLibraries/boringssl-master/crypto/refcount.c:30-59 | in every run, entitled or not the calls, the count is saturated or equal to the number of references |
| RefCount.AbortExact | ios/ExternalLibraries/boringssl-master/crypto/refcount.c:42-59 | in every run, entitled or not the calls, a decrement aborts if and only if at its last read of the count no reference was left and the count was not saturated |
| RefCount.StepCounted | ios/ExternalLibraries/boringssl-master/crypto/refcount.c:30-59 | every step by owners keeps the count equal to the number of references below saturation, and does not abort |
| RefCount.NeverAborts | ios/ExternalLibraries/boringssl-master/crypto/refcount.c:47-49 | if only owners of references call, no run aborts: at the last read of each decrement its own reference was there |
| RefCount.ZeroIsLastRelease | ios/ExternalLibraries/boringssl-master/crypto/refcount.c:52-57 | a decrement that returns one is the last step of the run and leaves no reference |
| RefCount.ExactlyOneZero | ios/ExternalLibraries/boringssl-master/crypto/refcount.c:42-59 | when all references are gone and the count never saturated, exactly one decrement returned one, the last |
| RefCount.AbortsWhenReleasedTwice | ios/ExternalLibraries/boringssl-master/crypto/refcount.c:47-49 | an instance: one reference released by two threads |
| ExData.StepKeeps | ios/ExternalLibraries/boringssl-master/crypto/ex_data.c:135-170 | every step of every thread keeps the list, lock and index invariant, and registrations are never taken back or reordered |
| ExData.NeverStuck | ios/ExternalLibraries/boringssl-master/crypto/ex_data.c:135-234 | in every reachable state every thread can take its next step, unless it waits for the lock, and then the holder can |
| ExData.RegistrationsGrow | ios/ExternalLibraries/boringssl-master/crypto/ex_data.c:135-170 | along a run the registrations only grow at the end |
| ExData.PublishChain | ios/ExternalLibraries/boringssl-master/crypto/ex_data.c:167 | publishing makes the list one longer and complete again |
| ExData.LinkChain | ios/ExternalLibraries/boringssl-master/crypto/ex_data.c:157-165 | hanging a node behind the last published one changes no pointer in front of it |
| ExData.NeverNull | ios/ExternalLibraries/boringssl-master/crypto/ex_data.c:222-231 | no reader follows a null pointer |
| ExData.ReadsPublished | ios/ExternalLibraries/boringssl-master/crypto/ex_data.c:220-231 | a reader that loaded n reads the pointers to the first n registrations and the callbacks and arguments in them, and nothing else without the lock |
| ExData.CursorPoints | ios/ExternalLibraries/boringssl-master/crypto/ex_data.c:222-230 | the pointer a reader is about to follow leads to the registration it is due to visit |
| ExData.WritesBehind | ios/ExternalLibraries/boringssl-master/crypto/ex_data.c:135-170 | no step writes a pointer to a published registration or the callback fields in it |
| ExData.RaceFree | ios/ExternalLibraries/boringssl-master/crypto/ex_data.c:135-231 | what a reader reads, pointers and callback fields, is written by no step at or after its load, in any interleaving |
| ExData.ChangesAreWrites | ios/ExternalLibraries/boringssl-master/crypto/ex_data.c:135-231 | every pointer a step changes and every node it adds is among the places it is said to write, and the callback fields of a node never change |
| ExDataStore.ReadsSuffice | ios/ExternalLibraries/boringssl-master/crypto/ex_data.c:220-231 | what a reader does next, and whom it calls with what, is decided by its own variables and the places it is said to read |
| ExData.EveryReadRaceFree | ios/ExternalLibraries/boringssl-master/crypto/ex_data.c:135-231 | every read without the lock, in any run, belongs to a walk with a load of the length before it, and no step from that load on writes what it reads |
| ExData.VisitsAll | ios/ExternalLibraries/boringssl-master/crypto/ex_data.c:209-234 | a finished walk called back for exactly the registrations present at its load, in order, with their indices |
| ExData.ReturnsItsPlace | ios/ExternalLibraries/boringssl-master/crypto/ex_data.c:167-169 | the index a registration returns is its place in the order |
| ExData.CallbackIndexIsReturned | ios/ExternalLibraries/boringssl-master/crypto/ex_data.c:169-228 | each callback is made with the index that registering its node returned |
| ExData.AllocHolds | ios/ExternalLibraries/boringssl-master/crypto/ex_data.c:137-146 | the node of a registering call holds the callback passed in, in every later state |
| ExData.PassedAreHeld | ios/ExternalLibraries/boringssl-master/crypto/ex_data.c:135-170 | the registered nodes hold, in order, the callbacks passed in by the calls that published them |
| ExData.ReturnsPublished | ios/ExternalLibraries/boringssl-master/crypto/ex_data.c:167-169 | a registration returns the number of those published before it, counted from the reserved number |
| ExData.IndicesContiguous | ios/ExternalLibraries/boringssl-master/crypto/ex_data.c:149-170 | returned indices start at num_reserved, have no gap or repetition, and fit in an int |
| ExData.LengthBound | ios/ExternalLibraries/boringssl-master/crypto/ex_data.c:217-218 | in every run the length is at most INT_MAX - num_reserved + 1 |
| ExData.LengthCountsPublishes | ios/ExternalLibraries/boringssl-master/crypto/ex_data.c:147-167 | the length is the number of publishing steps so far, and each of these is for the index that the length before it leads to |
| ExData.DebugAssertionFailsExactly | ios/ExternalLibraries/boringssl-master/crypto/ex_data.c:149-218 | for every run and every load of the length by a reader, the debug assertion fails if and only if the registration of index INT_MAX was published before |
| ExData.RefusedExactly | ios/ExternalLibraries/boringssl-master/crypto/ex_data.c:149-154 | a registration is refused if and only if the one of index INT_MAX was published before |
| ExData.EmptyListAssertionHolds | ios/ExternalLibraries/boringssl-master/crypto/ex_data.c:158-159 | the debug assertion in the writer always holds: without a last node nothing is registered yet |
| ExData.DebugAssertionCanFail | ios/ExternalLibraries/boringssl-master/crypto/ex_data.c:149-218 | an instance: one thread uses up the indices and then loads the length |
| ExData.EveryLengthReached | ios/ExternalLibraries/boringssl-master/crypto/ex_data.c:149-170 | every length up to the bound is reached by some run |
| ExDataStore.CryptoExData.Set | ios/ExternalLibraries/boringssl-master/crypto/ex_data.c:172-196 | stores at one index and changes no other; a failed allocation changes no value; a negative index aborts |
| ExDataStore.CryptoExData.Get | ios/ExternalLibraries/boringssl-master/crypto/ex_data.c:198-203 | the stored value, null elsewhere |
| ExDataStore.CryptoExData.Free | ios/ExternalLibraries/boringssl-master/crypto/ex_data.c:209-234 | calls back for each registration with a callback and drops the values |
| ExDataStore.CallsAreOwn | ios/ExternalLibraries/boringssl-master/crypto/ex_data.c:223-231 | a callback is made exactly for registrations that have one, at their own index with the value stored there |
| ExDataStore.CallsIncrease | ios/ExternalLibraries/boringssl-master/crypto/ex_data.c:223-231 | no registration is called back twice |
| ExDataStore.FinishedWalkCalls | ios/ExternalLibraries/boringssl-master/crypto/ex_data.c:209-234 | in any interleaving the calls of a finished walk are those CryptoExData.Free makes for the callbacks passed in by the registering calls published before its load, in order |
| ExDataStore.RegisteredIsCalled | ios/ExternalLibraries/boringssl-master/crypto/ex_data.c:135-234 | what a thread passes in when it registers, every walk that loads the length later calls exactly once, at the index the registration returns and with the value stored there; for a null callback nothing is called there |
| ThreadLocal.RunConserves | ios/ExternalLibraries/boringssl-master/crypto/thread_pthread.c:71-148 | in every run what was passed in is destroyed, held, or lost, as multisets |
| ThreadLocal.StepConserves | ios/ExternalLibraries/boringssl-master/crypto/thread_pthread.c:71-148 | every step of every thread balances the books |
| ThreadLocal.LossExact | ios/ExternalLibraries/boringssl-master/crypto/thread_pthread.c:71-148 | a step loses a value if and only if it stores over a value that is not null or is a failing mutex at the exit of a thread with values, and nothing lost comes back |
| ThreadLocal.NothingLostExactly | ios/ExternalLibraries/boringssl-master/crypto/thread_pthread.c:71-148 | a run has lost nothing if and only if none of its steps is of these two kinds |
| ThreadLocal.DestroyedWhere | ios/ExternalLibraries/boringssl-master/crypto/thread_pthread.c:71-148 | a value is destroyed at once where its call fails, and otherwise only by the exit of the thread that holds it |
| ThreadLocal.DestructorsAreLast | ios/ExternalLibraries/boringssl-master/crypto/thread_pthread.c:116-146 | in every run an index has the destructor registered for it last |
| ThreadLocal.DestroyedByLast | ios/ExternalLibraries/boringssl-master/crypto/thread_pthread.c:71-96 | a value is destroyed by the destructor registered last for its index when its thread took the copy, whoever registered it |
| ThreadLocal.StepOrderly | ios/ExternalLibraries/boringssl-master/crypto/thread_pthread.c:71-148 | under the discipline every step keeps each value under its own index and destructor and loses none |
| ThreadLocal.StoredTwiceLoses | ios/ExternalLibraries/boringssl-master/crypto/thread_pthread.c:116-148 | in any run, a thread that stores twice at one index has lost what it stored there first, whatever happens in between |
| ThreadLocal.DestroyedOrHeld | ios/ExternalLibraries/boringssl-master/crypto/thread_pthread.c:71-148 | under the documented discipline nothing is lost and no value meets another index's destructor |
| ThreadLocal.EveryValueDestroyedOnce | ios/ExternalLibraries/boringssl-master/crypto/thread_pthread.c:71-148 | once all threads have exited each value was destroyed exactly once, by its own destructor |
| ThreadLocal.SecondSetLosesFirst | ios/ExternalLibraries/boringssl-master/crypto/thread_pthread.c:116-146 | an instance: one thread sets an index twice and the first value is never destroyed |
| ThreadLocal.SetThenGet | ios/ExternalLibraries/boringssl-master/crypto/thread_pthread.c:103-148 | a thread reads back what it set and no other index changes |
| ThreadLocal.OthersDoNotShow | ios/ExternalLibraries/boringssl-master/crypto/thread_pthread.c:103-148 | what a thread reads does not depend on what other threads do |

## Left out

- NameConstraints.NameConstraints.IsPermittedCert: requires that the sums of list lengths fit in a `size_t`, as the source's comments say they do.
- NameConstraints.NameConstraints.IsPermittedDirectoryName: `VerifyNameInSubtree` is a parameter, as is `FindEmailAddressesInName` in `IsPermittedCert`.
- GeneralNames.ParseGeneralName: like the code, does not look at octets that follow the name inside a directoryName.
- ModExp.ModExp: allocation failures are not modelled; the result must not share storage with the base or the modulus (with the exponent it may).
- Rfc2253.ValueRoundTrip: UniversalString and BMPString conversions are parameters; an unknown type's hexadecimal text holds the value without tag and length, as the code writes it.
- Times.EncodeGeneralizedTime: what a buffer holds after a failed call is not stated.
- PosixTime.UtcRoundTrip: `struct tm`, `time_t`, and the adjustment and difference of times are left out.
- PosixTime.UtcRoundTrip: `struct tm`, `time_t` and the adjustment and difference of times are left out.
- Crl.GetCRLStatusForCert: the revocation date of an entry must parse; like the code, nothing is done with it.
- CheckCrl.CheckCRL: the parsers of the certificate list, its body, algorithms and issuing distribution point, the date check, name normalization and signature verification are parameters.
- Ocsp.CheckOCSP: the parsers of responses and certificates, hashes, name matching, the date check and signature verification are parameters; the matching of identifiers, extensions, responders and signers is modelled.
- Ocsp.IdentifiesOne: hashes are parameters and assumed not to collide, here and in Ocsp.RespondersAgree.
- ParseName.ConvertToRFC2253: `ValueAsString` and the other strict conversions of values are not modelled; an attribute with a value tag the printer does not know fails, as in builds without assertions.
- ExData.RaceFree: memory is sequentially consistent; the lock is taken and released atomically.
- ExDataStore.CryptoExData.Free: callbacks do not change the values while they run.
- ThreadLocal.EveryValueDestroyedOnce: destructors do not call back into thread-local storage; null values are not accounted for, since destructors may get null at any time.
- Certificate errors carry no parameters, and errors of the policy parsers are not recorded.
- Flutter runners, CPU probing, the other fuzz targets, constant-time helpers, `crypto/mem.c`, the path builder and all cryptography: platform code, drivers of fuzzers, or easy members.
