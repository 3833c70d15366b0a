# Panorama2Terraform: a verified model of object resolution and device-group splitting

This project models, in Dafny, the logic that decides *which* objects a
Palo Alto Panorama configuration export contributes to the generated
Terraform and to the per-device-group XML files. It covers two programs:

* **`panorama_to_terraform.py`**, the converter. `PanoramaParser` scans an
  ordered list of XPath scopes for each object type and builds a name-keyed
  catalog. `TerraformGenerator` turns names into Terraform identifiers and
  HCL string literals.
* **`split_device_groups.py`**, the splitter. It lists the device groups,
  extracts one configuration per group and names the output files. Each
  configuration holds the group and the merged `<shared>` sections. It also
  holds the matching template and every template stack that lists the group.

The XML tree is not parsed. Each scope path's matches are given as a
sequence of abstract entry records, in path order and then document order.
Each record holds its name and the children the code looks at. Presence of
a child is a `bool` or an `Option`. The text of a child is an
`Option<string>` (`None` for an element without text), or a `string` where
the code reads `""` and `None` alike, as in the `if member.text` filters.

Modules:

| module | file | what it models |
|---|---|---|
| `Wrappers` | wrappers.dfy | `Option` |
| `Text` | text.dfy | the string helpers the code relies on: ASCII `lower()`, `in` on strings, `str.replace` |
| `ScopeResolver` | scope_resolver.dfy | the two catalog strategies: first-seen-wins (`seen_names` set) and content-overrides (dictionary with stub dropping) |
| `ObjectKinds` | object_kinds.dfy | address objects, address groups, service objects and service groups on the content-overrides resolver |
| `Routers` | routers.dfy | `parse_virtual_routers` / `parse_logical_routers`: the key, the retention rule and the template-then-device scan |
| `Interfaces` | interfaces.dfy | `parse_interfaces`: the five families and the one `seen_names` set they share |
| `Classify` | classify.dfy | the priority cascades over child presence: zone type, external list, decryption, PBF action, OSPF area, IPsec tunnel, IKE gateway |
| `Naming` | naming.dfy | `sanitize_name`, `escape_string` and the router resource-name counter |
| `DeviceGroups` | device_groups.dfy | the splitter: listing, extraction with the in-place shared merge, template and stack association, file names |

Loops of the source are `method`s proved against a specification function.
An example is `ResolveFirstSeen`, whose result is `FirstSeen(Concat(scopes), nameOf)`.
The properties the source promises are lemmas about those functions. The
shared merge changes the first category of each tag in place. So a category
is a `class` with a mutable `entries` field, and `MergeShared` states both
the merged section and the new state of every child.

## Model

| member | source | states |
|---|---|---|
| Text.Lower | panorama_to_terraform.py:2037 | lowercasing keeps the length and maps each character through ASCII `lower()` |
| Text.RemoveAll | split_device_groups.py:105 | removing every occurrence of a pattern never lengthens the string |
| Text.RemoveAllAbsent | split_device_groups.py:105 | a string without the pattern is returned unchanged |
| Text.FirstCharUniqueSelfOverlapFree | split_device_groups.py:105 | a pattern whose first character does not recur (such as `DG-` or `dg-`) cannot overlap itself |
| Text.RemoveAllAround | split_device_groups.py:105 | for a pattern that cannot overlap itself, `(x + pat + y).replace(pat, '')` is `x.replace(pat, '') + y.replace(pat, '')`: the middle occurrence is removed and no occurrence straddles its edges |
| Text.ReplaceChar | split_device_groups.py:175 | replacing one character keeps the length and changes exactly the positions holding that character |
| Text.NonEmptyTexts | panorama_to_terraform.py:1185-1187 | the kept texts are exactly the non-empty inputs, none of them empty |
| Text.NonEmptyTextsAppend | panorama_to_terraform.py:1185-1187 | the `if member.text` filter distributes over concatenation, so order is kept and each text is judged on its own |
| ScopeResolver.FirstIndex | panorama_to_terraform.py:89-103 | the index of the first entry with a given name, or the length when there is none |
| ScopeResolver.FirstIndexFound | panorama_to_terraform.py:89-103 | a name has a first index inside the sequence iff some entry carries it |
| ScopeResolver.FirstSeenNames | panorama_to_terraform.py:91-94 | the first-seen catalog holds exactly the non-empty names of the scanned entries (nameless entries skipped) |
| ScopeResolver.FirstSeenDistinct | panorama_to_terraform.py:92-96 | no name appears twice in the first-seen catalog |
| ScopeResolver.FirstSeenFirstOccurrences | panorama_to_terraform.py:89-103 | each record is the first entry with its name across all paths in order, and records are in discovery order |
| ScopeResolver.ResolveFirstSeen | panorama_to_terraform.py:82-103 | the loop over paths with its `seen_names` set builds exactly the first-seen catalog of the concatenated scopes |
| ScopeResolver.StoreWellFormed | panorama_to_terraform.py:371-376 | a dictionary store keeps the insertion-order list duplicate-free and in step with the keys |
| ScopeResolver.FirstAdmitted | panorama_to_terraform.py:371-376 | the first non-stub entry with a name comes from the input and carries that name |
| ScopeResolver.LastOverriding | panorama_to_terraform.py:371-376 | the last content-bearing entry with a name comes from the input and carries that name |
| ScopeResolver.OverridingIsAdmitted | panorama_to_terraform.py:371-376 | a name with a content-bearing entry also has an admitted first entry |
| ScopeResolver.OverridesWinner | panorama_to_terraform.py:371-376 | the stored record for each name is the last content-bearing entry, or else the first admitted entry; stubs and nameless entries never win |
| ScopeResolver.OverridesKeys | panorama_to_terraform.py:328-336 | the catalog's keys are exactly the names of non-stub named entries |
| ScopeResolver.OverridesEntriesAdmitted | panorama_to_terraform.py:371-376 | every stored record is an admitted input entry stored under its own name |
| ScopeResolver.FullDefinitionRetained | panorama_to_terraform.py:328-336 | once a non-stub entry for a name is seen, the catalog holds a non-stub record for it |
| ScopeResolver.AdmitKeepsAdmitted | panorama_to_terraform.py:328-336 | an admitted entry's name survives stub dropping |
| ScopeResolver.LastOverridingFound | panorama_to_terraform.py:373 | a content-bearing entry always yields a last overriding entry for its name |
| ScopeResolver.OverridesContentIsLast | panorama_to_terraform.py:373-374 | a stored content-bearing record is the last content-bearing entry with that name (later content overwrites) |
| ScopeResolver.AdmittedNamesNonEmpty | panorama_to_terraform.py:322-324 | the empty name never enters the catalog |
| ScopeResolver.OverridesOrder | panorama_to_terraform.py:376 | the output order is dictionary first-insertion order: first-seen order of the admitted entries |
| ScopeResolver.ResolveWithOverrides | panorama_to_terraform.py:321-376 | the loop over paths mutating the dictionary returns the override catalog's records in insertion order |
| ObjectKinds.MemberTexts | panorama_to_terraform.py:363-368 | tag members are the non-empty member texts; no `tag` child gives none |
| ObjectKinds.HasAddressValue | panorama_to_terraform.py:328-336 | an address carrying a value is never a stub |
| ObjectKinds.AddressValueOf | panorama_to_terraform.py:339-355 | fqdn beats ip-range beats ip-netmask, and the value is the chosen child's text (`None` for a child without text); no value iff none of the three children is present |
| ObjectKinds.ToAddress | panorama_to_terraform.py:337-369 | the record keeps the name, has a value iff the entry carries one, and keeps exactly the non-empty tags |
| ObjectKinds.ParseAddressObjects | panorama_to_terraform.py:308-376 | addresses are the override catalog under the address policy (stub = `id` with no content; content = a value) |
| ObjectKinds.HasGroupMembers | panorama_to_terraform.py:399-402 | a group with members or a dynamic filter is never a stub |
| ObjectKinds.ToAddressGroup | panorama_to_terraform.py:408-427 | the record keeps the name; its filter is the filter element's text (`None` without a filter element or without text); the entry is content-bearing iff it has a non-empty static member or a filter element, even one without text |
| ObjectKinds.ParseAddressGroups | panorama_to_terraform.py:378-429 | groups are the override catalog under the address-group policy |
| ObjectKinds.HasTransport | panorama_to_terraform.py:449-451 | a service with a tcp or udp child is never a stub |
| ObjectKinds.ToService | panorama_to_terraform.py:458-482 | tcp beats udp; the port comes from the chosen protocol; no transport means no port |
| ObjectKinds.ParseServiceObjects | panorama_to_terraform.py:431-484 | services are the override catalog under the service policy |
| ObjectKinds.HasServiceMembers | panorama_to_terraform.py:506-508 | a service group with members is never a stub |
| ObjectKinds.ToServiceGroup | panorama_to_terraform.py:514-528 | the record keeps the name and has members iff the entry is content-bearing |
| ObjectKinds.ParseServiceGroups | panorama_to_terraform.py:486-530 | service groups are the override catalog under the service-group policy |
| ObjectKinds.StubThenDefinition | panorama_to_terraform.py:328-336 | a stub, then a definition, then a valueless entry of one name leave exactly the definition |
| Routers.LexLeTotal | panorama_to_terraform.py:1216 | Python's string order is total |
| Routers.LexLeAntisymmetric | panorama_to_terraform.py:1216 | Python's string order is antisymmetric |
| Routers.LexLeTransitive | panorama_to_terraform.py:1216 | Python's string order is transitive |
| Routers.SortSpec | panorama_to_terraform.py:1216 | `sorted` returns an ordered permutation of its input |
| Routers.SortedUnique | panorama_to_terraform.py:1216 | two ordered permutations of one multiset are equal, so `sorted` is determined by the multiset |
| Routers.Join | panorama_to_terraform.py:1216 | joining no interfaces gives the empty signature; one interface gives itself |
| Routers.JoinAppend | panorama_to_terraform.py:1216 | appending an interface to a non-empty list appends a comma and that interface |
| Routers.FirstFive | panorama_to_terraform.py:1216 | `interfaces[:5]` is a prefix of length min(5, n) |
| Routers.KeyOrderInsensitive | panorama_to_terraform.py:1216-1217 | the key depends only on the multiset of the first five interfaces |
| Routers.KeyIgnoresLaterInterfaces | panorama_to_terraform.py:1216-1217 | interfaces after the fifth do not change the key |
| Routers.ExtraInterfaceNewKey | panorama_to_terraform.py:1216-1217 | a router seen with two and with three of the same interfaces gets two different key strings (by `Routers.KeepKeys`, two separate catalog entries) |
| Routers.KeyCollision | panorama_to_terraform.py:1217 | distinct (name, interfaces) pairs can share a key when names contain `_` |
| Routers.NamedRoutes | panorama_to_terraform.py:1191-1205 | kept static routes are exactly the named ones |
| Routers.NamedRoutesAppend | panorama_to_terraform.py:1191-1205 | the named-route filter distributes over concatenation, so the routes keep their order |
| Routers.KeepKeys | panorama_to_terraform.py:1221-1222 | the stored keys are exactly the keys of the scanned descriptors |
| Routers.KeepOrder | panorama_to_terraform.py:1265 | output order is the first-seen order of the keys |
| Routers.KeepStoresMaximal | panorama_to_terraform.py:1221-1222 | each stored descriptor has its key and at least as many interfaces as any descriptor with that key |
| Routers.KeepMonotone | panorama_to_terraform.py:1221-1222 | scanning more descriptors never removes a key or lowers its interface count |
| Routers.FirstMaximalWins | panorama_to_terraform.py:1221-1222 | the stored descriptor is the first with the largest interface count (ties keep the earlier one) |
| Routers.CollectInterfaces | panorama_to_terraform.py:1184-1187 | the interface loop keeps the non-empty member texts in document order |
| Routers.CollectRoutes | panorama_to_terraform.py:1190-1205 | the route loop keeps the named routes in order |
| Routers.DescribedStep | panorama_to_terraform.py:1178-1211 | describing one more router extends the descriptors by it when it is named, and by nothing otherwise |
| Routers.KeepStep | panorama_to_terraform.py:1221-1222 | scanning one more descriptor is one store decision |
| Routers.OfferRouter | panorama_to_terraform.py:1221-1222 | the store-if-absent-or-more-interfaces step on the dictionary equals the catalog step |
| Routers.ScanScope | panorama_to_terraform.py:1178-1222 | scanning one scope's routers extends the retained catalog by that scope's descriptors |
| Routers.ParseRouters | panorama_to_terraform.py:1170-1265 | template routers are scanned before device routers, and the result is the retained descriptors in key insertion order (also `parse_logical_routers`, 1267-1365) |
| Interfaces.EthernetMode | panorama_to_terraform.py:924-954 | layer3 beats layer2 beats virtual-wire beats tap beats ha beats aggregate-group, each mode iff its cascade condition |
| Interfaces.AggregateMode | panorama_to_terraform.py:1114-1161 | an aggregate is layer3 iff it has layer3, else layer2 iff it has layer2, else no mode |
| Interfaces.SeenNamesAppend | panorama_to_terraform.py:909 | recording an interface adds exactly its name to the seen set |
| Interfaces.AcceptConsistent | panorama_to_terraform.py:906-909 | accepting a new name keeps the seen set equal to the emitted names, with no duplicates |
| Interfaces.ScanUnitsConsistent | panorama_to_terraform.py:1132-1135 | scanning aggregate units keeps the seen set consistent with the emitted interfaces |
| Interfaces.ScanUnitsGrows | panorama_to_terraform.py:1132-1135 | scanning units never removes a seen name |
| Interfaces.PrefixedSeenName | panorama_to_terraform.py:895 | an interface's recorded name determines its seen-set key |
| Interfaces.CompletePending | panorama_to_terraform.py:1164 | appending the aggregate parent after its units restores consistency |
| Interfaces.AggregateConsistent | panorama_to_terraform.py:1095-1164 | one aggregate entry keeps the seen set consistent with the emitted interfaces |
| Interfaces.StepConsistent | panorama_to_terraform.py:903-1164 | one entry of any family keeps the seen set consistent with the emitted interfaces |
| Interfaces.ScanAllDistinct | panorama_to_terraform.py:895-1166 | across all five families no name is emitted twice, the empty name never, and every named entry's name ends up seen |
| Interfaces.StepGrows | panorama_to_terraform.py:895 | the seen set only grows |
| Interfaces.StepSeesName | panorama_to_terraform.py:906-909 | after an entry is scanned its non-empty name is in the seen set |
| Interfaces.AcceptEntry | panorama_to_terraform.py:906-909 | the skip-or-record step on the set and list equals the specification step |
| Interfaces.StepEntry | panorama_to_terraform.py:903-1164 | one family entry on the set and list equals the specification step |
| Interfaces.ScanFamily | panorama_to_terraform.py:903-1164 | a family's loop over its paths equals scanning its entries in order |
| Interfaces.ScanAllAppend | panorama_to_terraform.py:903-1164 | scanning families one after another equals scanning their concatenation |
| Interfaces.ParseInterfaces | panorama_to_terraform.py:892-1168 | the five family loops together yield the scan of ethernet, vlan, loopback, tunnel and aggregate entries in that order |
| Interfaces.SharedSeenSet | panorama_to_terraform.py:895 | a vlan unit named like an ethernet interface is skipped, since the families share one set |
| Interfaces.SubunitsBeforeParent | panorama_to_terraform.py:1132-1164 | aggregate sub-units are emitted before their parent, and a unit with the parent's name is dropped because the parent's name is already seen; the parent is still emitted |
| Classify.TextOf | panorama_to_terraform.py:2007-2010 | a missing child has no text; a present child has its own text |
| Classify.ZoneTypeOf | panorama_to_terraform.py:862-870 | layer2 beats tap beats virtual-wire beats tunnel; layer3 otherwise |
| Classify.RecurrenceOf | panorama_to_terraform.py:270-275 | hourly beats five-minute beats daily, else no recurrence |
| Classify.ExternalListOf | panorama_to_terraform.py:265-294 | ip beats domain beats url, each with its own url text and recurrence; no type gives no kind, url or recurrence |
| Classify.DecryptionTypeOf | panorama_to_terraform.py:719-726 | forward-proxy beats inbound-inspection beats ssh-proxy, else no type |
| Classify.PbfActionOf | panorama_to_terraform.py:773-795 | later checks overwrite earlier ones: no-pbf beats discard beats forward |
| Classify.AreaTypeOf | panorama_to_terraform.py:1756-1759 | stub beats nssa, else normal |
| Classify.TunnelOf | panorama_to_terraform.py:1817-1848 | manual-key overrides auto-key; gateway and profile come only from auto-key |
| Classify.IkeVersionOf | panorama_to_terraform.py:1885-1890 | ikev2 only when the protocol has ikev2 and no ikev1 |
| Classify.IkeCryptoProfileOf | panorama_to_terraform.py:1892-1897 | the profile is read from the chosen version's node, and from none when neither version is present |
| Classify.PeerOf | panorama_to_terraform.py:1899-1907 | fqdn overrides ip, and the peer is marked fqdn iff an fqdn child exists |
| Naming.Underscored | panorama_to_terraform.py:2031 | every character outside `[a-zA-Z0-9_]` becomes `_`, position by position |
| Naming.StripLeft | panorama_to_terraform.py:2033 | the result does not start with `_` |
| Naming.StripLeftSuffix | panorama_to_terraform.py:2033 | the result is a suffix of the input and only underscores were removed |
| Naming.StripRight | panorama_to_terraform.py:2033 | the result does not end with `_` |
| Naming.StripRightPrefix | panorama_to_terraform.py:2033 | the result is a prefix of the input and only underscores were removed |
| Naming.Strip | panorama_to_terraform.py:2033 | `strip('_')` leaves neither a leading nor a trailing `_` |
| Naming.StripSlice | panorama_to_terraform.py:2033 | the stripped text is a contiguous slice of the input |
| Naming.StripEmpty | panorama_to_terraform.py:2033 | stripping gives the empty string iff the input is all underscores |
| Naming.GuardDigit | panorama_to_terraform.py:2035-2036 | a leading digit gets one `_` in front; anything else is unchanged |
| Naming.SanitizeName | panorama_to_terraform.py:2028-2037 | the result is at most one character longer than the name |
| Naming.LowerWordChar | panorama_to_terraform.py:2037 | lowering a word character gives a name character and keeps `_` and digits |
| Naming.SurvivorsAreWordChars | panorama_to_terraform.py:2031-2033 | after substitution and stripping only word characters remain |
| Naming.SurvivorsEmpty | panorama_to_terraform.py:2031-2033 | nothing survives iff the name has no ASCII letter or digit |
| Naming.GuardDigitWordChars | panorama_to_terraform.py:2035-2036 | the digit guard keeps word characters and never leaves a leading digit |
| Naming.LowerNameChars | panorama_to_terraform.py:2037 | lowering word characters gives only `[a-z0-9_]` |
| Naming.SanitizeNameShape | panorama_to_terraform.py:2028-2037 | only `[a-z0-9_]`; never ends with `_`; never starts with a digit; a leading `_` is followed by a digit; empty iff no letter or digit |
| Naming.LowerIdentity | panorama_to_terraform.py:2037 | lowering text with no capitals changes nothing |
| Naming.SanitizeNameFixed | panorama_to_terraform.py:2028-2037 | an already well-formed identifier is its own sanitized name |
| Naming.SanitizeNameIdempotent | panorama_to_terraform.py:2028-2037 | sanitizing twice equals sanitizing once |
| Naming.Replace | panorama_to_terraform.py:2043-2045 | after replacing a character by text without it, the character is gone; no new characters appear |
| Naming.ReplaceAppend | panorama_to_terraform.py:2043-2045 | replacement distributes over concatenation |
| Naming.EscapeChar | panorama_to_terraform.py:2043-2045 | backslash becomes `\\`, quote becomes `\"` and newline becomes `\n`; every other character is kept |
| Naming.EscapeAll | panorama_to_terraform.py:2043-2045 | escaped text contains no raw newline |
| Naming.EscapeBodyAppend | panorama_to_terraform.py:2043-2045 | the three chained replacements distribute over concatenation |
| Naming.EscapeBodyChar | panorama_to_terraform.py:2043-2045 | the three chained replacements on one character give its escape |
| Naming.EscapeBodyPerChar | panorama_to_terraform.py:2043-2045 | backslash first, then quote, then newline equals escaping character by character (nothing is escaped twice) |
| Naming.UnescapeEscapeAll | panorama_to_terraform.py:2043-2045 | undoing the three escapes returns the input exactly |
| Naming.EscapeAllWellEscaped | panorama_to_terraform.py:2043-2045 | the escaped text holds no bare quote, backslash or newline: it is a run of plain characters and two-character escapes |
| Naming.EscapeString | panorama_to_terraform.py:2039-2047 | None gives `""`; otherwise the per-character escape between quotes, with no bare quote inside (so the literal ends only at its closing quote), an inner part that unescapes to the input, and no raw newline |
| Naming.DigitChar | panorama_to_terraform.py:2705 | each decimal digit becomes a digit character |
| Naming.Decimal | panorama_to_terraform.py:2705 | a count's decimal text is non-empty and all digits |
| Naming.ParseDecimalOfDecimal | panorama_to_terraform.py:2705 | decimal rendering is invertible |
| Naming.SuffixedInjective | panorama_to_terraform.py:2704-2705 | different counts give different suffixed names for one base |
| Naming.Bases | panorama_to_terraform.py:2700 | one base name per router |
| Naming.BasesAt | panorama_to_terraform.py:2700 | the i-th base is the sanitized i-th router name |
| Naming.CountOf | panorama_to_terraform.py:2703-2708 | a base's count never exceeds the routers seen |
| Naming.CountOfLast | panorama_to_terraform.py:2703-2708 | the router just seen counts at least once |
| Naming.SuffixedNames | panorama_to_terraform.py:2698-2708 | one resource name per base |
| Naming.ResourceNamesOf | panorama_to_terraform.py:2698-2708 | one resource name per router |
| Naming.ResourceNames | panorama_to_terraform.py:2695-2708 | the loop over routers with its per-base counter dictionary yields the specified names |
| Naming.SuffixedNamesAt | panorama_to_terraform.py:2698-2708 | the i-th name is its base suffixed by the base's count so far |
| Naming.CountOfAbsent | panorama_to_terraform.py:2703-2708 | an unseen base has count zero |
| Naming.CountOfMonotone | panorama_to_terraform.py:2703-2708 | counts only grow along the routers |
| Naming.FirstGetsBase | panorama_to_terraform.py:2706-2708 | the first router with a base gets the bare base |
| Naming.LaterGetsSuffix | panorama_to_terraform.py:2703-2705 | the k-th router with a base (k >= 2) gets `base_k` |
| Naming.PrefixCountGrows | panorama_to_terraform.py:2703-2705 | a later router with the same base has a strictly larger count |
| Naming.ResourceNamesDistinctPerBase | panorama_to_terraform.py:2698-2708 | two routers with the same base get different resource names |
| Naming.SanitizeNameOfVr | panorama_to_terraform.py:2028-2037 | `vr` and `vr_2` are already sanitized |
| Naming.ResourceNamesCanCollide | panorama_to_terraform.py:2698-2708 | routers `vr`, `vr`, `vr_2` give `vr_2` twice, so resource names are not unique |
| DeviceGroups.ParseDeviceGroups | split_device_groups.py:36-47 | the loop with its `seen` set lists the first-seen non-empty group names in order |
| DeviceGroups.DeviceGroupListing | split_device_groups.py:36-47 | listed names are distinct and are exactly the non-empty names of group entries |
| DeviceGroups.FindDeviceGroup | split_device_groups.py:61-65 | the result is the first group entry in document order with the requested name; None iff no entry has it |
| DeviceGroups.ListedGroupsFound | split_device_groups.py:166-172 | every listed group is found again by name |
| DeviceGroups.EntryNamesAppend | split_device_groups.py:97-99 | appending an entry adds exactly its name to the existing names |
| DeviceGroups.MergeEntriesAppends | split_device_groups.py:90-99 | existing entries are kept as a prefix; each appended entry is named, comes from the incoming ones, and has a name no earlier entry has |
| DeviceGroups.MergeEntriesCovers | split_device_groups.py:90-99 | every named incoming entry's name is present afterwards |
| DeviceGroups.MergeEntriesNoop | split_device_groups.py:97-98 | when every incoming name is already present nothing changes |
| DeviceGroups.MergeEntriesIdempotent | split_device_groups.py:90-99 | merging the same entries a second time changes nothing |
| DeviceGroups.TagIndex | split_device_groups.py:85-89 | the first category with a tag, or the length when there is none |
| DeviceGroups.TagIndexAppend | split_device_groups.py:85-89 | how the first index of a tag changes when a category is appended |
| DeviceGroups.TagIndexPrefix | split_device_groups.py:85-89 | a tag found in a prefix keeps its first index in any extension |
| DeviceGroups.TagIndexSameTags | split_device_groups.py:85-89 | first indices depend only on the tags |
| DeviceGroups.MergeStepShape | split_device_groups.py:83-99 | one category either is adopted at the end or grows the category of its tag in place |
| DeviceGroups.MergedCovers | split_device_groups.py:83-89 | every input tag appears in the merged section |
| DeviceGroups.MergedCoversTag | split_device_groups.py:83-89 | a tag present in the input is present in the merged section |
| DeviceGroups.MergedFirstSeen | split_device_groups.py:83-89 | merged categories come from the input, in order of their tags' first occurrence |
| DeviceGroups.MergedDistinct | split_device_groups.py:85-89 | no tag appears twice in the merged section |
| DeviceGroups.MergedContent | split_device_groups.py:83-99 | each merged category holds the entries gathered for its tag |
| DeviceGroups.GatheredKeepsFirst | split_device_groups.py:86-89 | the first category's entries stay a prefix of the merged entries |
| DeviceGroups.GatheredGrows | split_device_groups.py:92-99 | merging never loses an entry name |
| DeviceGroups.GatheredCovers | split_device_groups.py:90-99 | every named entry of every same-tag category is represented by name |
| DeviceGroups.MergedSection | split_device_groups.py:74-101 | each merged category starts with its first-seen category's entries and covers every named entry of that tag |
| DeviceGroups.AfterMerge | split_device_groups.py:83-99 | after merging every child keeps its tag, and only adopted children change |
| DeviceGroups.MergedSameTags | split_device_groups.py:83-89 | the merged section's tag sequence depends only on the children's tags |
| DeviceGroups.GatheredSteady | split_device_groups.py:97-98 | when later categories add no new names the first category's entries are unchanged |
| DeviceGroups.AfterMergeAdopted | split_device_groups.py:86-89 | each merged category is the first child with its tag, and that child now holds the merged entries |
| DeviceGroups.MergeAgain | split_device_groups.py:74-101 | merging the mutated shared sections again gives the same section and changes nothing more |
| DeviceGroups.Category.constructor | split_device_groups.py:83-84 | a category is built with its tag and entries |
| DeviceGroups.Values | split_device_groups.py:83-84 | the values of the categories, position by position |
| DeviceGroups.MergeInto | split_device_groups.py:90-99 | appending into an existing category in place leaves exactly the entry merge of its old entries |
| DeviceGroups.NotYetAdopted | split_device_groups.py:83-89 | a child not yet visited is not in the merged section and is still unchanged |
| DeviceGroups.AdoptChild | split_device_groups.py:86-89 | adopting a new tag appends the child itself and records it |
| DeviceGroups.AbsorbChild | split_device_groups.py:90-99 | a child of a seen tag grows that tag's adopted category in place |
| DeviceGroups.MergeChild | split_device_groups.py:83-99 | one child advances the merge by one specification step |
| DeviceGroups.MergeDone | split_device_groups.py:74-101 | at the end the merged objects hold the merged values, in first-seen order, and every child's value is its after-merge value |
| DeviceGroups.MergeShared | split_device_groups.py:74-101 | the merged section is the first child object of each tag, holding the merged entries; other children are unchanged |
| DeviceGroups.AdoptStep | split_device_groups.py:86-89 | a tag not yet merged is first seen at the current child |
| DeviceGroups.TemplateNameFor | split_device_groups.py:105 | removing every `DG-` and then every `dg-` never lengthens the name |
| DeviceGroups.TemplateNameForSplits | split_device_groups.py:105 | a `DG-` in the group name splits it: each side loses its own `DG-` markers before the `dg-` pass |
| DeviceGroups.TemplateNameForDropsMarker | split_device_groups.py:105 | a name with one `DG-` and no other marker maps to the two sides joined (`Site-DG-East` to `Site-East`) |
| DeviceGroups.TemplateNameForDropsLowerMarker | split_device_groups.py:105 | a name with one `dg-` and no other marker maps to the two sides joined |
| DeviceGroups.FindTemplateNamed | split_device_groups.py:106-107 | the result is the first template in document order with exactly the name; None iff no template has it |
| DeviceGroups.FindTemplateLoose | split_device_groups.py:109-115 | the result is the first template in document order whose lowercased name contains the lowercased unstripped group name (the loop's `break`); None iff none does |
| DeviceGroups.FindTemplate | split_device_groups.py:105-115 | the first template named exactly by the stripped name; only when there is none, the first loose match in document order; None iff neither exists |
| DeviceGroups.LookupTemplate | split_device_groups.py:105-119 | the lookup with the fallback loop and its early break returns the specified template |
| DeviceGroups.StacksFor | split_device_groups.py:122-129 | attached stacks are exactly the stacks that list the group, each stack entry once (the result's multiset is the input's restricted to matching stacks) |
| DeviceGroups.AttachStacks | split_device_groups.py:122-129 | the nested loop with `break` attaches exactly the stacks `StacksFor` gives, in document order |
| DeviceGroups.ExtractDeviceGroupConfig | split_device_groups.py:49-131 | None iff the group is missing; otherwise the group, the default version `10.0.0`, the merged shared section, the template and the stacks, with shared children mutated in place |
| DeviceGroups.SafeName | split_device_groups.py:175 | every `/` and space becomes `_`, the length is kept, and neither remains |
| DeviceGroups.AdoptedOf | split_device_groups.py:86-89 | the adopted child objects, one per merged category |
| DeviceGroups.SplitStep | split_device_groups.py:166-175 | one listed group produces its file |
| DeviceGroups.ExtractInBatch | split_device_groups.py:166-172 | a listed group is always extracted, and a repeated merge gives the same shared section |
| DeviceGroups.MergeRepeated | split_device_groups.py:74-101 | merging already-merged children gives the same result as the first merge |
| DeviceGroups.SharedFinal | split_device_groups.py:165-183 | every file's shared section holds the merged values of the original children |
| DeviceGroups.SplitAll | split_device_groups.py:165-183 | one (file name, configuration) pair per listed group, each named by its safe name and holding the export's version, that group's entry, template and stacks, and a shared section exactly when the export has one, the same merged section in every file; pairs can share a file name (see `SafeNamesCanCollide`) |
| DeviceGroups.StripsEveryPrefixOccurrence | split_device_groups.py:105 | `A-DG-B` maps to template name `A-B`: `DG-` is removed anywhere, not only as a prefix |
| DeviceGroups.SafeNamesCanCollide | split_device_groups.py:175-181 | the groups `a/b`, `a b` and `a_b` all get the file name `a_b`, so a later group's file overwrites an earlier one |

Where the code and its documentation disagree, the model follows the code:

* Address stubs (an `id` and no content) are dropped. They are not stored
  as placeholders.
* A valueless non-stub entry is stored only when its name is new. It does
  not overwrite.
* The router key uses the first five interfaces. So a router with
  interfaces `[e1, e2]` and one with `[e1, e2, e3]` get different keys.
* Every template stack that lists the group is attached, not just the
  first.
* `DG-` and `dg-` are removed wherever they occur in the name, not only
  as a prefix.

## Left out

- XML parsing and XPath search. Each path's matches are given as a sequence of entry records; `.//` descendant search and overlapping paths show up only through those sequences.
- Nested entries inside a shared category. The category's `.//entry` descendants are one flat list, and an entry appended under a category is not searched inside other entries.
- The XPath strings built from the group name in the splitter (quoting and injection are library behaviour). `root.find` of an entry by name is the first entry with that name.
- ElementTree `append` does not detach an element from its old parent. The model treats appended elements as shared objects, and only the merge's in-place mutation of the first category of each tag is tracked.
- File writing, `mkdir`, `ET.indent`, `print`, the report and README generators, the provider and variables templates, and every `generate_*` body except the router resource-name loop.
- Command-line handling (`argparse`, existence checks, exit codes) of both programs.
- Text-copying field extraction (`_get_text`, `_get_members`): each record holds the text of its children directly.
- Interface `zone` and `virtual_router` fields, which are always `None` in the parser.
- First-seen object types other than those named above (regions, URL categories, application groups and filters, schedules, rules, profiles, IKE/IPsec objects and others) share one loop shape, which `ScopeResolver.ResolveFirstSeen` models generically. Their per-type field copying is not modelled.
- Text.Lower: lowercases ASCII letters only; Python's full Unicode `lower()` is not modelled.
- Naming.ResourceNames: takes `sanitize_name` as a parameter so the loop's proof does not depend on it; `Naming.SanitizeName` is the function passed in the converter.
- Routers.ParseRouters: takes the key function as the fixed `Key`; virtual and logical routers share one model, with a flag for the router type.
- A name attribute that is missing and one that is empty are the same (`""`) in the converter, because the code tests `not name`. The splitter keeps them apart as `Option<string>`.
- DeviceGroups.SplitAll: returns the (file name, configuration) pairs in order instead of writing files; when two groups have the same safe name the later write replaces the earlier file, which the model shows only through `DeviceGroups.SafeNamesCanCollide`.
- A shared section's children are taken as one sequence across all `<shared>` sections, in document order, instead of two nested loops.
