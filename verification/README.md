# Verified models of ethtool, ping and cansequence

This project models the parts of a Linux network test collection whose results are easy to get
almost right: the receive-flow rules, the hash indirection table and the offload features of
`ethtool`, the duplicate detection, statistics and checksum of `ping`, the sequence check of
`cansequence`, and the allocation list of ethtool's own test harness. `dafny verify
dfyconfig.toml` checks everything.

The system's own story, module by module:

- `FlowRules`, `RuleGroups`, `FlowParser`, `RuleMeaning`, `RuleLayout`: `ethtool -N <dev> flow-type …`.
  A command line becomes the bytes of a flow specification. Four option tables say where each value
  and mask lies. The tables are shown to allow options together exactly if they share no byte; from
  this follow exactly which command lines are accepted (all numbers in range, no two options on the
  same bytes), that the order of the options does not matter, that the rule passes exactly the packets
  on which every typed option matches, and that the bytes are the kernel's structures, member by member
  in their declared order.
- `Ntuple`, `RuleConversion`: drivers without flow specifications get an n-tuple filter instead. The
  filter passes the same packets as the rule for every rule that the conversion accepts, and its
  check for two kinds of data is exactly what that needs. Which command lines can be converted is
  characterised in terms of what was typed.
- `RulePrinter`: a specification is printed back. The whole print-out of an accepted command line is
  given line by line: what was typed comes back under its own caption, except that user data loses its
  upper half.
- `RuleManager`: the slot allocator, a word-by-word search of a bitmap from the end with unsigned
  wrap-around. It agrees with a plain scan except in one family of tables, which is characterised;
  tables that the search filled itself are not in it.
- `Indirection`: spreading a table over rings by weight, in 32-bit arithmetic. Which outcome occurs is
  decided for all weights. With a total below 2^32 a table is the exact apportionment, and comes out
  exactly when the products fit.
- `Features`, `FeatureArgs`, `FeatureRequest`, `LegacyOffload`: `ethtool -K`. Wildcard matching of
  feature names, the merge of legacy flags with named features into one request, and the commands
  for devices without named features.
- `Checksum`, `Ping`: the Internet checksum against section 2 of RFC 1071, and ping as a state
  machine over sends and replies.
- `FieldPrinter`: hexadecimal printing of unaligned bit fields.
- `CanSequence`: a numbered stream over a channel that loses frames.
- `AllocList`: an intrusive circular list updated through pointers, over an allocator that keeps a log.
- `Bits`, `FlowBytes`, `Machine`, `Arithmetic`, `Wrappers`: words as sequences of bits, numbers as
  sequences of bytes, machine integers, quotients, `Option`.

Where the code and its comments, headers or evident intent disagree the model follows the code. There are
six such places:

- the slot search can report a full table that has room, although its comments say that a word is
  skipped only when it has no empty spots (`RuleManager.SearchIsScan`,
  `RuleManager.SearchMissesFreeSlots`);
- the check on the total weight is computed on a wrapped sum, so a total above the size of the table
  can pass (`Indirection.FillByWeight`, `Indirection.ExcessFills`);
- user data is printed without its upper half (`RulePrinter.PrintsUserData`);
- a last rule option without a value is dropped without an error (`RuleMeaning.DroppedOption`,
  `RuleMeaning.LocationWithoutValue`);
- the kernel header wants the protocol of a raw IPv4 rule to have a zero mask, but giving the
  protocol sets one (`RuleLayout.ProtocolMask`, `RuleLayout.ProtocolIsCompared`);
- ping accepts data lengths whose packet is up to eight bytes longer than its send buffer
  (`Ping.SendsBufferOnly`).

## Model

| member | source | states |
|---|---|---|
| `Bits.SetBit` | ethernet_test/ethtool/internal.h:70-73 | afterwards the bitmap stands for the old set of locations plus the given one, for every word width |
| `Bits.ClearBit` | ethernet_test/ethtool/internal.h:75-78 | the given location, and no other, leaves the set |
| `Bits.TestBit` | ethernet_test/ethtool/internal.h:80-84 | the answer is membership in the set |
| `Bits.SetInMeaning` | ethernet_test/ethtool/internal.h:70-73 | or-ing a shifted one into a word changes membership of exactly one location among all |
| `Bits.ClearInMeaning` | ethernet_test/ethtool/internal.h:75-78 | and-ing with the inverted mask removes exactly one location |
| `Bits.TestInMeaning` | ethernet_test/ethtool/internal.h:80-84 | the masked word is non-zero exactly for members |
| `FlowBytes.NetworkOrder` | ethernet_test/ethtool/internal.h:48-59 | a swapped 16, 32 or 64-bit number lies in little-endian memory most significant byte first |
| `FlowBytes.NetworkLoad` | ethernet_test/ethtool/internal.h:48-63 | loading and swapping reads the bytes back in memory order |
| `FlowRules.TablesGood` | ethernet_test/ethtool/rxclass.c:545-667 | in every option table, options whose flags allow them together never share a byte, masks mirror values, all fields stay inside the structure, no option name can be read as a mask keyword, and IP options spare the version byte |
| `FlowRules.TablesExact` | ethernet_test/ethtool/rxclass.c:545-667 | conversely, options that share no byte may always be given together, so two options exclude each other exactly when their fields overlap |
| `FlowRules.EncodeInRange` | ethernet_test/ethtool/rxclass.c:684-728 | an argument is accepted for an option if and only if it is an address of the right kind, or a number below 2 to the option's width in bits |
| `FlowParser.GetValInto` | ethernet_test/ethtool/rxclass.c:730-848 | the in-place write is the specified step, including the duplicate-flag and range errors; a failed call writes nothing but marks the option as given |
| `FlowParser.GetMaskInto` | ethernet_test/ethtool/rxclass.c:850-950 | likewise for masks, which are refused where the option has none; a failed call writes nothing |
| `FlowParser.ParseOption` | ethernet_test/ethtool/rxclass.c:1012-1060 | one turn of the option loop leaves the outcome of the whole remaining command line unchanged, and fails exactly when that is a rejection |
| `FlowParser.ParseRuleOpts` | ethernet_test/ethtool/rxclass.c:952-1072 | the parser succeeds exactly on the command lines that have a rule, and leaves its bytes |
| `FlowParser.RuleOrder` | ethernet_test/ethtool/rxclass.c:1012-1067 | permuting the option groups of an accepted command line gives the identical specification |
| `RuleGroups.ParseFlatten` | ethernet_test/ethtool/rxclass.c:1012-1060 | the argument-by-argument parser reads a command line group by group |
| `RuleGroups.GroupsOf` | ethernet_test/ethtool/rxclass.c:1012-1060 | conversely, every accepted command line is a sequence of groups, perhaps followed by the name of an option without a value |
| `RuleGroups.ParseDropped` | ethernet_test/ethtool/rxclass.c:1018-1023 | one more argument behind the groups changes nothing if it is the name of an option, and is an error otherwise |
| `RuleGroups.GroupAccepted` | ethernet_test/ethtool/rxclass.c:730-950 | one group is accepted exactly when its arguments are valid and its flags are still free |
| `RuleGroups.GroupEffect` | ethernet_test/ethtool/rxclass.c:736-947 | it writes its value and mask bytes and changes no other byte |
| `RuleGroups.AllAccepted` | ethernet_test/ethtool/rxclass.c:952-1072 | a command line is accepted exactly when every group is valid and no two groups share a flag |
| `RuleGroups.AllCarried` | ethernet_test/ethtool/rxclass.c:952-1072 | the result carries every group's value and mask, and bytes no group names are as before |
| `RuleGroups.AllFlagged` | ethernet_test/ethtool/rxclass.c:733-736 | the collected flags are those of the given options, no more and no fewer |
| `RuleGroups.AcceptablePermutes` | ethernet_test/ethtool/rxclass.c:1012-1060 | acceptability does not depend on the order of the groups |
| `RuleGroups.OrderIndependent` | ethernet_test/ethtool/rxclass.c:1012-1060 | neither do the resulting bytes and flags |
| `RuleMeaning.SpecOfIsRule` | ethernet_test/ethtool/rxclass.c:952-1072 | the specification built from groups is what the parser returns on the flattened command line, and is rejected alike |
| `RuleMeaning.RuleIsGroups` | ethernet_test/ethtool/rxclass.c:952-1072 | every accepted command line has such groups, so the statements about groups cover all of them |
| `RuleMeaning.LineAccepted` | ethernet_test/ethtool/rxclass.c:952-1072 | a command line of known options is accepted if and only if every typed value and mask is in range, only options with masks have one, and no two options have overlapping fields |
| `RuleMeaning.OutOfRangeRejected` | ethernet_test/ethtool/rxclass.c:684-697 | a command line with one number out of range is rejected |
| `RuleMeaning.MaskSpellings` | ethernet_test/ethtool/rxclass.c:1036-1049 | a mask introduced by `m` or by the option's name and `-mask` gives the same rule, which is accepted if and only if the option takes masks and both numbers are in range |
| `RuleMeaning.TypedValue` | ethernet_test/ethtool/rxclass.c:684-697 | what is stored of an accepted number is the whole number |
| `RuleMeaning.DroppedOption` | ethernet_test/ethtool/rxclass.c:1018-1023 | for every command line and one more argument: accepted, with the result it has without the argument, if and only if the argument names an option and the rest is accepted |
| `RuleMeaning.LocationWithoutValue` | ethernet_test/ethtool/rxclass.c:1018-1023 | `tcp4 loc` is accepted and stands for the rule of `tcp4` alone |
| `RuleMeaning.SpecCarries` | ethernet_test/ethtool/rxclass.c:952-1072 | the finished specification, after version and marker are added, still carries every group |
| `RuleMeaning.SpecElsewhere` | ethernet_test/ethtool/rxclass.c:1008-1010 | every byte of the unions that no group names is zero |
| `RuleMeaning.ExtendedIff` | ethernet_test/ethtool/rxclass.c:1064-1065 | the flow type is marked as extended exactly when an extension option was given |
| `RuleMeaning.FieldOf` | ethernet_test/ethtool/rxclass.c:752-845 | the field of every given option holds the typed number most significant byte first, and its mask the typed mask inverted |
| `RuleMeaning.RuleIsOptions` | ethernet_test/ethtool/rxclass.c:952-1072 | a packet matches an accepted rule exactly when every typed option matches its field up to the typed mask |
| `RuleMeaning.NoMaskMeansEqual` | ethernet_test/ethtool/rxclass.c:952-1072 | an option without a mask matches exactly the packets whose field is the typed value |
| `RuleLayout.GivenOnce` | ethernet_test/ethtool/rxclass.c:736-739 | in an accepted command line no option is given twice |
| `RuleLayout.TcpLayout` | ethernet_test/ethtool/ethtool-copy.h:451-457 | the rule of a TCP, UDP or SCTP command line is source and destination address, source and destination port, and type of service, as typed or zero, in this order; the inverted masks likewise are the bits to ignore, all of them where nothing was typed |
| `RuleLayout.EspLayout` | ethernet_test/ethtool/ethtool-copy.h:468-473 | likewise for AH and ESP: addresses, security parameter index, type of service |
| `RuleLayout.IpLayout` | ethernet_test/ethtool/ethtool-copy.h:486-493 | likewise for raw IPv4: addresses, the four layer-4 bytes under whichever name they were typed, type of service, version and protocol |
| `RuleLayout.EtherLayout` | ethernet_test/ethtool/rxclass.c:644-653 | likewise for Ethernet: destination, source, protocol |
| `RuleLayout.ExtLayout` | ethernet_test/ethtool/ethtool-copy.h:506-510 | likewise for the extension of every rule: VLAN type, VLAN tag, user data |
| `RuleLayout.ProtocolMask` | ethernet_test/ethtool/ethtool-copy.h:483-484 | the version of a raw IPv4 rule is that of IPv4 with a zero mask; the protocol's mask is zero if and only if no protocol is given or its typed mask is 255 |
| `RuleLayout.ProtocolIsCompared` | ethernet_test/ethtool/ethtool-copy.h:484 | `ip4 l4proto N` is accepted for every N of one byte and has a mask that is not zero |
| `RuleLayout.ExtendedByName` | ethernet_test/ethtool/rxclass.c:1064-1065 | the flow type is marked as extended exactly if VLAN type, VLAN tag or user data is given, by name |
| `RuleLayout.FlowTypeIs` | ethernet_test/ethtool/rxclass.c:966-1009 | the flow type of an accepted command line is the kernel's number for the name, with the top bit exactly for an extension |
| `RuleLayout.FilterFlowType` | ethernet_test/ethtool/ethtool.c:3240-3289 | the filter made from it has the kernel's number alone, extended or not |
| `RuleConversion.ComparedIff` | ethernet_test/ethtool/rxclass.c:1044-1065 | the rule compares the VLAN type, or the user data, if and only if it was typed with a mask that does not ignore all of it, and is then marked as extended |
| `RuleConversion.ConvertibleIff` | ethernet_test/ethtool/ethtool.c:3222-3234 | the conversion accepts the rule of a command line if and only if a typed location is 2^32 - 1, a typed action is at most 2^31 - 1 or one of the two highest 64-bit numbers, and not both kinds of data are compared |
| `RuleConversion.TypedExact` | ethernet_test/ethtool/ethtool.c:3217-3292 | from argument list to filter: the filter, read as the conversion encodes it, passes exactly the packets on which every typed option matches, if and only if not both kinds of data are compared |
| `RuleConversion.DataIsTyped` | ethernet_test/ethtool/ethtool.c:3277-3284 | if no VLAN type is compared, typed user data and its mask arrive in the filter as the 64-bit numbers that were typed |
| `RuleConversion.TagIsTyped` | ethernet_test/ethtool/ethtool.c:3260-3263 | a typed VLAN tag and its mask always arrive in the filter as typed |
| `Ntuple.FlowSpecToNtuple` | ethernet_test/ethtool/ethtool.c:3217-3292 | fails exactly on the inconvertible rules, and otherwise returns the filter the meaning theorems are about |
| `Ntuple.ConvertibleRange` | ethernet_test/ethtool/ethtool.c:3222-3234 | the same conditions on every specification, in integers |
| `Ntuple.FlowTypeFields` | ethernet_test/ethtool/ethtool.c:3240-3289 | the filter's flow type is the rule's with the top bit cleared |
| `Ntuple.PlainFields` | ethernet_test/ethtool/ethtool.c:3236-3237 | without an extension the filter's tag, data and their masks are all ones |
| `Ntuple.CopyUnions` | ethernet_test/ethtool/ethtool.c:3247-3256 | values copied, masks inverted, padding all ones |
| `Ntuple.ActionIsCookie` | ethernet_test/ethtool/ethtool.c:3226-3241 | in every accepted conversion the 32-bit action, sign-extended, is the 64-bit ring cookie |
| `Ntuple.HeadersAgree` | ethernet_test/ethtool/ethtool.c:3247-3256 | both forms compare the same header bits although their masks have opposite senses and the filter is longer |
| `Ntuple.TagFields` | ethernet_test/ethtool/ethtool.c:3260-3263 | the filter's VLAN tag is the rule's, with its mask inverted |
| `Ntuple.DataFields` | ethernet_test/ethtool/ethtool.c:3277-3284 | without a VLAN type the filter's data is the rule's user data, with its mask inverted |
| `Ntuple.EtypeFields` | ethernet_test/ethtool/ethtool.c:3264-3275 | with one, it is the number of that type, and the inverted mask is the number of the type's mask |
| `Ntuple.EtypeSame` | ethernet_test/ethtool/ethtool.c:3272-3275 | comparing such numbers under such a mask is comparing the types |
| `Ntuple.MeaningPreserved` | ethernet_test/ethtool/ethtool.c:3217-3292 | for every rule the conversion accepts, a packet passes the filter exactly when it matches the rule, if the driver reads VLAN type or user data into the shared space as the conversion writes it |
| `Ntuple.BothKindsLost` | ethernet_test/ethtool/ethtool.c:3230-3234 | for every rule that compares both kinds of data there is a packet that the filter would take and the rule does not |
| `Ntuple.MeaningExact` | ethernet_test/ethtool/ethtool.c:3230-3234 | so the data check is exactly right: rule and filter agree on all packets if and only if the rule passes it |
| `RulePrinter.InvertFlowMask` | ethernet_test/ethtool/rxclass.c:15-21 | in place, exactly the header masks are inverted |
| `RulePrinter.PrintNfcRule` | ethernet_test/ethtool/rxclass.c:66-170 | the values handed to the formatter, in terms of the specification before it was modified |
| `RulePrinter.PrintRule` | ethernet_test/ethtool/rxclass.c:172-201 | likewise for the whole printer, which prints nothing for flow types it does not know |
| `RulePrinter.HeaderLineIs` | ethernet_test/ethtool/rxclass.c:77-154 | a printed header line is the field's bytes and its mask bytes inverted |
| `RulePrinter.ExtLinesAre` | ethernet_test/ethtool/rxclass.c:42-64 | so are the extension lines, but for the upper half of the user data |
| `RulePrinter.FlowComesBack` | ethernet_test/ethtool/rxclass.c:172-189 | the printer recognises the flow type of every accepted command line, marked as extended or not |
| `RulePrinter.PrintedFlows` | ethernet_test/ethtool/rxclass.c:172-201 | exactly which specifications are printed: the kernel's numbers for the seven flow types, marked or not, raw IP only with the version of IPv4 |
| `RulePrinter.PrintsRule` | ethernet_test/ethtool/rxclass.c:66-201 | round trip: the whole print-out of an accepted command line, line by line in the order of the captions; every value and mask as typed, zero and all ignored where nothing was typed, the layer-4 bytes of raw IPv4 as one line, the extension only if something of it was given, and action and location as typed or as set up |
| `RulePrinter.PrintsUserData` | ethernet_test/ethtool/rxclass.c:54-57 | typed user data is printed as typed if and only if the number is below 2^32; its mask always is |
| `RuleManager.HighestFreeIsHighest` | ethernet_test/ethtool/rxclass.c:327-361 | the reference scan finds a free location with none free above it and fails only on a full table |
| `RuleManager.SearchIsScan` | ethernet_test/ethtool/rxclass.c:333-361 | the search agrees with the scan if and only if it does not skip a last word that has room; it skips it when the table ends on a word boundary and the lowest location of the last word is taken |
| `RuleManager.SearchMissesFreeSlots` | ethernet_test/ethtool/rxclass.c:342-345 | a table of one word with one rule, at location 0, is reported full |
| `RuleManager.SearchOfSet` | ethernet_test/ethtool/rxclass.c:327-361 | the search depends only on the set of taken locations |
| `RuleManager.InsertionsFill` | ethernet_test/ethtool/rxclass.c:317-373 | over every number of insertions into an empty table the search misses nothing: it fills the table from the end and fails only when it is full |
| `RuleManager.MaskedWordFull` | ethernet_test/ethtool/rxclass.c:342 | the masked test asks for bits 0 to size modulo the word width |
| `RuleManager.FirstGuard` | ethernet_test/ethtool/rxclass.c:342 | on a bitmap with no bit beyond its size, that test succeeds exactly when the last word is skipped as above |
| `RuleManager.SkipWord` | ethernet_test/ethtool/rxclass.c:351-354 | stepping over a full word does not change what the scan finds |
| `RuleManager.BitmapCovers` | ethernet_test/ethtool/internal.h:66-68 | the allocated bitmap has a bit for every location exactly when longs have 64 bits or the size is at most 2^32 - 32 |
| `RuleManager.Manager.constructor` | ethernet_test/ethtool/rxclass.c:382 | the cleared state is valid |
| `RuleManager.Manager.Ins` | ethernet_test/ethtool/rxclass.c:303-315 | fails exactly beyond the table, otherwise adds the one location |
| `RuleManager.Manager.FirstWord` | ethernet_test/ethtool/rxclass.c:327-345 | how many locations are left to look at after the first test, with wrapped counters |
| `RuleManager.Manager.SkipFullWords` | ethernet_test/ethtool/rxclass.c:351-354 | the loop keeps the result of the scan, stays inside the bitmap and ends when `loc` rolls over |
| `RuleManager.Manager.ScanBits` | ethernet_test/ethtool/rxclass.c:360-361 | returns the highest free location, or one outside the table if there is none |
| `RuleManager.Manager.FindEmptySlot` | ethernet_test/ethtool/rxclass.c:317-373 | returns and marks exactly what the search finds; a full search changes nothing |
| `RuleManager.Manager.Init` | ethernet_test/ethtool/rxclass.c:375-436 | fails exactly on unusable replies, otherwise the bitmap is the set of the device's rules |
| `RuleManager.Manager.InsAll` | ethernet_test/ethtool/rxclass.c:425-431 | fails exactly if some rule lies beyond the table |
| `RuleManager.SearchInReplies` | ethernet_test/ethtool/rxclass.c:317-373 | the search in terms of the device's replies: free, highest among those considered, none only if all are taken |
| `RuleManager.SetLocation` | ethernet_test/ethtool/rxclass.c:445-464 | a chosen location replaces no rule; the call fails exactly on unusable replies or when no considered location is free; a driver that selects locations itself, which is bit 31 of its reply, is left to do so |
| `Indirection.Threshold` | ethernet_test/ethtool/ethtool.c:3137 | the loop guard compares with the wrapped limit of the weights added so far |
| `Indirection.NextRing` | ethernet_test/ethtool/ethtool.c:3137-3141 | goes on to the first ring whose limit is above the entry, and runs out of weights only if no limit is |
| `Indirection.FillTable` | ethernet_test/ethtool/ethtool.c:3135-3143 | a table comes out if and only if some limit reaches the size, and every entry lies between the limits around its ring |
| `Indirection.FillByWeight` | ethernet_test/ethtool/ethtool.c:3115-3144 | which of the four outcomes occurs, as conditions on weights and size in both directions, for all totals; that a table of a total below 2^32 is the apportionment; and exactly when a total above the size yields a table |
| `Indirection.FillsIffFits` | ethernet_test/ethtool/ethtool.c:3115-3144 | with a total below 2^32, weights yield a table if and only if the total is positive, at most the size, and its product with the size fits in 32 bits |
| `Indirection.FillEqually` | ethernet_test/ethtool/ethtool.c:3111-3113 | entry i is ring i modulo the number of rings, so every ring gets the quotient of entries, the first ones one more |
| `Indirection.LimitIsBound` | ethernet_test/ethtool/ethtool.c:3137 | while size times total fits in 32 bits every limit is exact |
| `Indirection.LimitStarves` | ethernet_test/ethtool/ethtool.c:3137 | when it does not, no limit reaches the size |
| `Indirection.CompleteIffFits` | ethernet_test/ethtool/ethtool.c:3135-3143 | so the table is complete if and only if the products fit |
| `Indirection.OwnInterval` | ethernet_test/ethtool/ethtool.c:3135-3143 | a ring owns exactly the indices between its two bounds |
| `Indirection.ExactShare` | ethernet_test/ethtool/ethtool.c:3135-3143 | its number of entries is the difference of the bounds |
| `Indirection.Quota` | ethernet_test/ethtool/ethtool.c:3115-3144 | every ring is less than one entry away from its proportional share, gets at least its weight, and nothing for weight zero |
| `Indirection.ApportionedUnique` | ethernet_test/ethtool/ethtool.c:3135-3143 | the apportioned table is unique and non-decreasing |
| `Indirection.ExcessFills` | ethernet_test/ethtool/ethtool.c:3115-3144 | weights with a total of 2^32 + 1 yield a table of four entries, all of them ring 0, which is not the apportionment |
| `Features.FlagTableWellDefined` | ethernet_test/ethtool/ethtool.c:189-214 | every kernel-name pattern has at most one wildcard and every flag its own bit |
| `Features.FlagTableExt` | ethernet_test/ethtool/internal.h:107-110 | the flags without a set command of their own are exactly those of ETH_FLAG_EXT_MASK |
| `Features.MatchesIsAgree` | ethernet_test/ethtool/ethtool.c:1466-1490 | prefix and suffix comparison is the declarative wildcard match |
| `Features.MatchName` | ethernet_test/ethtool/ethtool.c:1466-1490 | the character loop, with its switch to suffix comparison, decides that match |
| `Features.FindFlag` | ethernet_test/ethtool/ethtool.c:1460-1491 | the first flag whose pattern matches, or none if none does |
| `Features.GetFeatureDefs` | ethernet_test/ethtool/ethtool.c:1457-1492 | every feature is assigned so, and the per-flag counts are the numbers of assigned features |
| `FeatureArgs.FindOption` | ethernet_test/ethtool/ethtool.c:307-308 | the first option of that name, or none |
| `FeatureArgs.Record` | ethernet_test/ethtool/ethtool.c:377-388 | an on/off pair sets exactly the bits of the option it names |
| `FeatureArgs.ParsePair` | ethernet_test/ethtool/ethtool.c:305-402 | one name and value extends what the masks show by that pair, or is an error exactly if malformed |
| `FeatureArgs.ParseArgs` | ethernet_test/ethtool/ethtool.c:295-403 | accepts exactly the well-formed argument lists; the masks are then exactly the named options and those switched on |
| `FeatureRequest.MergeFlag` | ethernet_test/ethtool/ethtool.c:2093-2118 | a legacy flag reaches exactly its features that are available, not fixed and not yet requested; it is unchangeable exactly if each of its features is unavailable or fixed |
| `FeatureRequest.Merge` | ethernet_test/ethtool/ethtool.c:2087-2119 | all flags: a feature the user named keeps the user's value, a flag reaches the rest, and the flags that cannot be changed are reported |
| `FeatureRequest.MergedRequest` | ethernet_test/ethtool/ethtool.c:2082-2121 | the request in terms of the arguments: valid and requested bits of every feature, both directions, and the flags that are reported as unchangeable |
| `FeatureRequest.DoSfeatures` | ethernet_test/ethtool/ethtool.c:2014-2156 | which of the outcomes occurs, and what is sent in terms of the arguments, with and without named features; a feature that is unavailable or fixed is in the request only if it was named itself |
| `FeatureRequest.ExpectedState` | ethernet_test/ethtool/ethtool.c:2166-2175 | the state compared with afterwards is what was asked for where something was, and the old state elsewhere; what is requested is also valid |
| `LegacyOffload.SendLegacy` | ethernet_test/ethtool/ethtool.c:2126-2156 | what is sent is a beginning of the list of commands that ends with the first one refused |
| `LegacyOffload.CommandsOrdered` | ethernet_test/ethtool/ethtool.c:2126-2155 | in that list the flags' own commands come in the order of the flags, and the word for the others comes last |
| `LegacyOffload.OwnCommands` | ethernet_test/ethtool/ethtool.c:2127-2142 | a flag's own command is among them, with a value, if and only if the flag has one, is named, and is given that value |
| `LegacyOffload.WordCommand` | ethernet_test/ethtool/ethtool.c:2144-2155 | the word for the other flags is among them if and only if one of those is named |
| `LegacyOffload.WordBits` | ethernet_test/ethtool/ethtool.c:2146-2148 | in that word named flags have the values asked for, other flags without a command their old ones, and flags with one are clear |
| `Checksum.InCksum` | ethernet_test/ping/ping.c:827-856 | the two-fold accumulator computes the one's-complement checksum of RFC 1071, without overflow, on either byte order and odd lengths |
| `Checksum.OnesSumIsFolded` | ethernet_test/ping/ping.c:836-853 | carrying at every addition or at the end is the same |
| `Checksum.TwoFolds` | ethernet_test/ping/ping.c:851-853 | two folds suffice for every non-negative 32-bit sum |
| `Checksum.OverflowFreeLengths` | ethernet_test/ping/ping.c:827-849 | the signed accumulator is safe on all buffers of a length if and only if it is at most 65537 bytes (65536 on a big-endian host) |
| `Checksum.ChecksumVerifies` | ethernet_test/ping/ping.c:596-612 | storing the checksum makes the checksum of the whole packet zero |
| `Checksum.SameBytesOnEveryHost` | ethernet_test/ping/ping.c:827-856 | both byte orders put the same two bytes on the wire |
| `Checksum.SwappingCommutes` | ethernet_test/ping/ping.c:827-856 | swapping the bytes of every word swaps those of the checksum |
| `Ping.TvSub` | ethernet_test/ping/ping.c:863-871 | the difference in microseconds, for all times; normalised for normalised times, and when one borrow is not enough |
| `Ping.TripTime` | ethernet_test/ping/ping.c:677-678 | the elapsed time in units of 100 microseconds, rounded down, for all times but those one borrow does not normalise, which are rounded up |
| `Ping.Engine.constructor` | ethernet_test/ping/ping.c:179-189 | the initial state of the machine |
| `Ping.Engine.Pinger` | ethernet_test/ping/ping.c:589-615 | one send step of the machine, and a packet with the right fields whose checksum verifies, for every data length the option parser accepts |
| `Ping.SendsBufferOnly` | ethernet_test/ping/ping.c:313-322 | for an accepted length, what is sent depends on the send buffer alone if and only if the length is at most the buffer's less 8; the checksum's accumulator is large enough for all of them |
| `Ping.Engine.StoreChecksum` | ethernet_test/ping/ping.c:609-612 | only the checksum field changes and the packet verifies |
| `Ping.Engine.RecordTrip` | ethernet_test/ping/ping.c:671-684 | one timing step of the machine: minimum, maximum and wrapped sum |
| `Ping.Engine.NoteReply` | ethernet_test/ping/ping.c:686-693 | one counting step of the machine; the duplicate flag is the table's bit |
| `Ping.Engine.PrPack` | ethernet_test/ping/ping.c:651-693 | one reply step of the machine on echo replies with the right identifier and length; other packets change nothing; the duplicate flag is the table's bit |
| `Ping.TableRemembers` | ethernet_test/ping/ping.c:686-693 | over every run whose replies reach back at most 1024 requests, a reply is flagged as a duplicate exactly if its request was answered before |
| `Ping.ForgetsRequestZero` | ethernet_test/ping/ping.c:600-603 | a run that reaches back 1025 requests and is flagged wrongly |
| `Ping.WindowIsExact` | ethernet_test/ping/ping.c:135-139 | duplicates are told apart in all runs of a window if and only if the window is at most 1024 |
| `Ping.CreditsAlwaysMatch` | ethernet_test/ping/ping.c:686-693 | in every run whose replies fall on slots in use, counted replies correspond one to one to distinct requests, through every reuse of a slot |
| `Ping.CountsAddUp` | ethernet_test/ping/ping.c:670-693 | in every run received plus repeated is the number of accepted replies; if replies fall on slots in use, received never exceeds transmitted |
| `Ping.LossInRange` | ethernet_test/ping/ping.c:890-896 | the printed percentage is the share of requests without a counted reply, rounded down, so it lies between 0 and 100 and is 100 exactly if nothing was received; it is printed in every run whose replies fall on slots in use |
| `Ping.TripSums` | ethernet_test/ping/ping.c:679-683 | the sum of times lies between count times minimum and count times maximum, also with a clock that runs backwards |
| `Ping.Extremes` | ethernet_test/ping/ping.c:680-683 | in every run the minimum is the least trip time and the maximum the greatest, or what they were set up with |
| `Ping.AverageExact` | ethernet_test/ping/ping.c:898-903 | the printed average is the true one if and only if the sum of times is not negative and fits in 64 bits |
| `Ping.AverageBetween` | ethernet_test/ping/ping.c:898-903 | it then lies between the printed minimum and maximum |
| `FieldPrinter.PrintFieldValue` | ethernet_test/ethtool/sfc.c:3708-3728 | the digits denote exactly the field's bits, and their number is the width over four rounded up |
| `FieldPrinter.ReadByte` | ethernet_test/ethtool/sfc.c:3721-3723 | every read of the buffer is of a byte that holds a bit of the field |
| `FieldPrinter.FieldDepends` | ethernet_test/ethtool/sfc.c:3708-3728 | buffers that agree on those bytes have the same field, so the digits depend on no other byte |
| `FieldPrinter.Digit` | ethernet_test/ethtool/sfc.c:3720-3724 | a digit cut from one or two bytes is the field's digit |
| `FieldPrinter.DigitOfBuffer` | ethernet_test/ethtool/sfc.c:3721-3724 | shifting and masking the fetched bytes equals cutting the whole buffer |
| `FieldPrinter.NextDigit` | ethernet_test/ethtool/sfc.c:3719-3726 | appending a digit extends the printed field by four bits |
| `CanSequence.Retry` | can_test/utilities/cansequence.c:240-270 | exactly interrupted writes, and writes without buffers for which polling is used and succeeds, are retried; they put nothing on the wire |
| `CanSequence.Send` | can_test/utilities/cansequence.c:234-277 | whatever fails and is retried, the k-th frame on the wire carries k modulo 256; when the loop stops and why |
| `CanSequence.Receive` | can_test/utilities/cansequence.c:203-232 | one report for every frame that does not follow its predecessor; with quit, exactly the first; a failed read ends it; how many frames are used |
| `CanSequence.GapsReported` | can_test/utilities/cansequence.c:203-277 | over every loss pattern of a numbered stream, reports equal the gaps whose length is not a multiple of 256 |
| `CanSequence.Check` | can_test/utilities/cansequence.c:203-277 | end to end: what the receiver reports of any part of what the sender sent |
| `CanSequence.SilentIff` | can_test/utilities/cansequence.c:218-226 | silence if and only if every gap is a multiple of 256 frames |
| `AllocList.LinkedGrown` | ethernet_test/ethtool/test-common.c:37-43 | the four pointer writes insert behind the head and keep both directions linked |
| `AllocList.LinkedWithout` | ethernet_test/ethtool/test-common.c:45-51 | bypassing a member keeps the rest linked in both directions |
| `AllocList.MallocList.constructor` | ethernet_test/ethtool/test-common.c:59 | the empty ring |
| `AllocList.MallocList.ListAdd` | ethernet_test/ethtool/test-common.c:37-43 | the block is now the first, the others keep their order |
| `AllocList.MallocList.ListDel` | ethernet_test/ethtool/test-common.c:45-51 | the block is gone, the others keep their order, its links are null |
| `AllocList.Heap.Malloc` | ethernet_test/ethtool/test-common.c:63 | a fresh block, which the log records, or null without memory |
| `AllocList.Heap.Free` | ethernet_test/ethtool/test-common.c:98 | only an allocated block may be freed; the log records it |
| `AllocList.MallocList.TestMalloc` | ethernet_test/ethtool/test-common.c:61-69 | the new block, allocated once, is first on the list, before the old ones; without memory nothing changes |
| `AllocList.MallocList.TestFree` | ethernet_test/ethtool/test-common.c:90-99 | the block is freed once and gone from the list; null is ignored |
| `AllocList.MallocList.TestFreeAll` | ethernet_test/ethtool/test-common.c:116-123 | exactly the blocks on the list are freed, each once and in list order, and the list is empty |
| `AllocList.Apply` | ethernet_test/ethtool/test-common.c:61-123 | what one operation does to the list and asks of the allocator |
| `AllocList.MatchesStep` | ethernet_test/ethtool/test-common.c:61-123 | each operation keeps the correspondence of list, log and live allocations |
| `AllocList.RunOps` | ethernet_test/ethtool/test-common.c:61-123 | after every script of allocations and frees the list holds exactly the blocks allocated and not freed, most recent first, and they are the ones the script leaves |

## Left out

- Sockets, ioctls, files, signals, clocks and argument vectors: their results are inputs.
- Conversion of text to numbers and addresses (`strtoull`, `inet_pton`, `sscanf`): the converted value, or its failure, is part of each argument.
- Text formatting of what is printed, such as the decimal SPI, the word for a discarding action and column padding: lines are the numbers handed to the formatter.
- Option types that no rule table uses (signed numbers, 16-bit host numbers, untyped options).
- Layouts other than a 64-bit little-endian host for flow specifications.
- The driver's rule that a zero value with a zero mask means an unspecified field, which the tool itself does not apply.
- The display of features.
- All other ethtool commands, the register dumpers other than field printing, and the transceiver decoder: tables and printing, with no state.
- `test_realloc` and the harness's list of open files.
- ping's option parsing, data pattern, name resolution, IP-option display and packet dumping; cansequence's options and verbose output.
- Wrap-around of ping's `long` counters, which takes 2^63 packets.
- The watchdog, latency, SPI and other small test programs: straight-line calls of the kernel.
- Ntuple.MeaningPreserved: what a driver compares with the filter's data depends on the driver; the statement is for drivers that follow the conversion's own encoding.
- RuleManager.Manager.Init: where the replies lead to a bitmap, requires 64-bit longs or a table of at most 2^32 - 32 locations, which `RuleManager.BitmapCovers` shows to be exactly when the bitmap is large enough; the code writes outside it otherwise. The reply's list has as many entries as were announced.
- RuleManager.SetLocation: requires the same.
- Indirection.FillByWeight: for totals of 2^32 and more, the entries are characterised by the wrapped limits only; they can be an apportionment and need not be.
- FeatureRequest.DoSfeatures: up to what is sent; the comparison with the new state is `FeatureRequest.ExpectedState` only. The valid and requested words are kept in two arrays rather than interleaved.
