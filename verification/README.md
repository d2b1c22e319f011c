# libnftnl in Dafny

This project models the core of libnftnl, the library that turns nftables rules, sets
and chains into netlink messages and back, and proves what the library promises about
them.

What is modelled, by file:

- `Bytes`, `Netlink`, `Message`: bytes in network and host order, the attribute stream
  of a netlink message (16-bit length, 16-bit type, payload, padding to four bytes), the
  message buffer with nests that are open until their length is patched, and the tables
  of last attributes that the parsing callbacks fill.
- `Exprs`, `ExprBuild`, `ExprParse`, `ExprRoundTrip`: the expressions immediate, cmp,
  lookup, bitwise, notrack and dynset, which holds further expressions to any depth.
  `Exprs` says what each builder writes and what each parser makes of any byte string;
  `ExprBuild` and `ExprParse` are the builders and parsers, step by step;
  `ExprRoundTrip` proves that parsing a built expression gives its normal form, and that
  this is the expression itself exactly when a condition on its attributes holds.
- `Rules`, `RuleRoundTrip`, `Rebuild`: rules, their builder and their parser, what a
  parsed rule depends on, and when building it again gives the same bytes.
- `SetElems`, `SetElemRoundTrip`, `ChunkedDump`, `ChunkRuns`, `DumpMessages`: set
  elements, and dumps of a set over several messages.
- `Wire`, `WireLast`, `WireRead`, `WireAccept`: the attributes with their types as the
  numbers of include/linux/netfilter/nf_tables.h: what every builder writes, what is found
  under each number in what it wrote, what every parser takes from any bytes, and which
  bytes it accepts.
- `LinuxList`, `Lists`, `ChainList`, `ChainHistory`: the intrusive lists, iterators, and
  the chain list whose nodes are linked into 512 hash buckets at the same time.
- `Batch`, `BatchRuns`: batches of messages on pages.
- `Udata`: user data buffers with nests.
- `Devices`, `Hooks`: the growing array of device names and the hook nest of a chain.
- `Texts`, `Printer`, `Printers`, `Fprintf`: truncating printers and the two passes of
  nftnl_fprintf. `Formats` expands format strings, and `TextFormats` proves that the texts
  are what the format strings of the snprintf calls expand to.

How it is modelled. An attribute of an object is an `Option`: present when its flag bit
is set. A parsing call ends in `Ok`, in `Rejected` (it returns -1 or NULL), in `Aborted`
(the process ends in `abi_breakage`) or in `Undefined` (the C code reads a null pointer
or an indeterminate value, writes outside an array, or marks an attribute as set whose
pointer is null); parsers are total over byte strings. Where
the round trip of the library does not hold for every value, the lemma says exactly for
which values it does. Some results that a user of the library may not expect:

- A built list of two or more elements is refused by the list parser, because the
  builder numbers the elements and the parser accepts type 1 only; a list of one is
  accepted exactly when its element is (`SetElemRoundTrip.BuiltListParses`).
- A set element whose nest takes 65532 bytes is taken back by every call of a chunked
  dump, which then never ends (`ChunkRuns.StuckElement`, `ChunkRuns.DumpEnds`).
- A batch loses a message longer than a page (`BatchRuns.NothingLost`).
- The length check of user data looks at the size of the whole buffer
  (`Udata.GuardIsRoom`; an input: `Udata.FillBeyondGuard`).
- The callback for elements compares types with the maximum of another enumeration,
  larger than its table (src/set_elem.c:451); a type in between makes it write behind the
  table (`SetElems.BareHeaderOverruns`, exactly when: `SetElems.ElemTableOverruns`).
- An immediate inside a dynset is printed without the prefix 0x, because the flag
  handed down contains the bit that suppresses it (src/expr/dynset.c:336-339); the text
  differs exactly when the value has a byte (`Texts.PrefixInDynset`).

Run `dafny verify dfyconfig.toml` in this directory to check everything.

## Model

| member | source | states |
|---|---|---|
| Netlink.WalkEncode | src/expr.c:210-222 | walking what was written gives back exactly the attributes, for every stream whose attributes fit a 16-bit length |
| Netlink.AttrLayout | src/rule.c:289-296 | an attribute in bytes: 16-bit length with its four header bytes, type, both with the low byte first, payload, zeros up to a multiple of four |
| Netlink.NestTypeIs | src/expr.c:219 | a nest carries the flag 0x8000, which readers take off together with 0x4000 |
| Messages.NestLayout | src/set_elem.c:417-421 | a nest of any length in bytes: its header holds the low 16 bits of the length |
| Netlink.WalkStopsAtJunk | src/expr.c:224-245 | a walk over attributes followed by bytes that are no attribute finds the attributes |
| WireLast.WalkThrough | src/expr.c:210-222 | a walk passes through what was written and goes on with the bytes behind it |
| Bytes.BE32Bytes | src/rule.c:320-323 | a number in network order, byte by byte |
| Bytes.BE64Halves | src/rule.c:293-296 | a 64-bit number in network order is its high half followed by its low half |
| Bytes.LE32Bytes | src/udata.c:98-102 | a number in host order, byte by byte |
| Bytes.LE32RoundTrip | src/udata.c:98-102 | the four host-order bytes of a number read back to it |
| Bytes.CStrStops | src/rule.c:452-459 | the string found at an address ends before the first NUL |
| Netlink.EncodeAligned | src/rule.c:283-325 | a message area built from attributes and nests is always a multiple of 4 bytes long |
| Netlink.CollectEmit | src/rule.c:339-378 | after the callback the table holds, for each type, the payload of the last attribute of that type that was written |
| Netlink.TableOfFields | src/rule.c:339-378 | with distinct field types the table gives back every field, set or not |
| Netlink.CollectOverruns | src/set_elem.c:446-480 | a callback writes outside its table exactly when the first attribute it neither skips nor stores has a type it takes for known but no entry for |
| Netlink.CollectAborts | src/rule.c:339-378 | a callback ends the process exactly when the first attribute that it neither skips nor stores has a malformed payload |
| Netlink.TableIsLast | src/rule.c:339-378 | the table holds for each type the last attribute of that type in any bytes that were accepted |
| WireRead.PayloadChecks | src/rule.c:347-374 | numbers must have their size, strings a byte, and nests no byte or room for a header |
| WireRead.RuleChecks | src/rule.c:339-378 | the callback for rules knows the types up to 11 and checks 1 and 2 as strings, 3 and 6 as 64-bit, 9 and 10 as 32-bit numbers, 5 as a nest |
| WireRead.ElemChecks | src/set_elem.c:446-480 | the callback for elements takes the types up to 18 for known, has room for 11, and checks 3 as a 32-bit, 4 and 5 as 64-bit numbers, and 1, 2, 7, 10 and 11 as nests |
| WireRead.DynsetChecks | src/expr/dynset.c:116-149 | the callback for dynsets knows the types up to 18 and checks 1 as a string, 2 to 5 and 9 as 32-bit numbers, 6 as a 64-bit number, 7 as a nest |
| WireRead.DataChecks | src/expr/data_reg.c:81-124 | the callbacks for data and verdicts check the verdict nest, code and chain id as numbers and the chain as a string |
| Netlink.ParseTable | src/rule.c:339-378 | every payload in the table passed the check of its type and is shorter than the message |
| Messages.Message.Put | src/rule.c:289-296 | writing an attribute appends header, payload and padding and changes nothing before |
| Messages.Message.NestStart | src/expr.c:219 | starting a nest appends a header whose length is still open |
| Messages.Message.NestEnd | src/expr.c:221 | ending a nest stores its length in the header and changes no other byte |
| Messages.CloseNest | src/rule.c:301-309 | patching the length afterwards writes the same bytes as encoding the nest from the inside out |
| Messages.CloseNestBytes | src/set_elem.c:903-915 | the same for a nest whose content is any bytes |
| Messages.CloseTwoNests | src/expr/immediate.c:127-142 | closing the outer of two nests before the inner one writes the same bytes as the tree encoder |
| Messages.ParseNested | src/expr.c:224-245 | one pass over the bytes with the recording callback computes the table of last attributes, or stops at the first malformed payload |
| ExprBuild.PutValue | src/expr/cmp.c:107-113 | a data value becomes one nest with one attribute |
| ExprBuild.PutVerdict | src/set_elem.c:331-342 | a verdict becomes two nests, closed in the order of the source |
| ExprBuild.BuildImmediate | src/expr/immediate.c:112-143 | the in-place builder writes exactly the encoding of the field list: register, then data or verdict |
| ExprBuild.BuildCmp | src/expr/cmp.c:99-114 | the in-place builder writes exactly the encoding of the field list |
| ExprBuild.BuildLookup | src/expr/lookup.c:115-130 | the in-place builder writes exactly the encoding of the field list |
| ExprBuild.BuildBitwise | src/expr/bitwise.c:132-168 | the in-place builder writes exactly the encoding of the field list with three nested values |
| ExprBuild.BuildList | src/rule.c:301-309 | the loop over expressions writes one list element per expression, in order, at any depth |
| ExprBuild.BuildBareExpr | src/set_elem.c:361-369 | exactly one inner expression is written as a single nest |
| ExprBuild.BuildExprList | src/set_elem.c:370-378 | two or more inner expressions are written as a list nest |
| ExprBuild.BuildDynset | src/expr/dynset.c:152-196 | the recursive builder writes exactly the encoding of the expression tree |
| ExprBuild.BuildExpr | src/expr.c:210-222 | the builder of any expression writes exactly the encoding of its tree |
| Wire.NamesOnTheWire | src/expr.c:213 | the six names that expressions are sent with, letter by letter |
| Wire.ExprWire | include/linux/netfilter/nf_tables.h:517-522 | an expression is its name as attribute 1 and what its type writes as nest 2 |
| Wire.VerdictWire | include/linux/netfilter/nf_tables.h:502-508 | a verdict is nest 2 with the code as attribute 1, the chain as 2 and the chain id as 3 |
| Wire.ImmediateWire | include/linux/netfilter/nf_tables.h:531-536 | an immediate: register 1, and nest 2 with the value or else the verdict |
| Wire.CmpWire | include/linux/netfilter/nf_tables.h:648-654 | a comparison: source register 1, operation 2, data 3 |
| Wire.LookupWire | include/linux/netfilter/nf_tables.h:699-707 | a lookup: registers 2 and 3, set name 1, set id 4, flags 5, in the order of the source |
| Wire.BitwiseWire | include/linux/netfilter/nf_tables.h:578-588 | a bitwise expression: registers 1 and 2, operation 6, length 3, mask 4, xor 5, data 7, in the order of the source |
| Wire.DynsetWire | include/linux/netfilter/nf_tables.h:734-747 | a dynset: key register 4, data register 5, operation 3, timeout 6, set name 1 and id 2, one inner expression as nest 7 or several as list 10, flags 9 |
| Wire.ListWire | include/linux/netfilter/nf_tables.h:135-139 | each expression of a list is in an attribute of type 1, in order |
| ExprParse.ReadVerdict | src/expr/data_reg.c:126-167 | the verdict parser, branch by branch; it accepts exactly the codes 0, 1, 3, -1, -2 and -5, and with a chain -3 and -4 |
| ExprParse.ReadData | src/expr/data_reg.c:169-207 | the data parser: value of 1 to 64 bytes, verdict, or neither; also what it leaves in the union |
| ExprParse.ReadImmediate | src/expr/immediate.c:146-184 | the parser yields what the specification of the format says, for every byte string |
| ExprParse.ReadCmp | src/expr/cmp.c:117-140 | the same for comparisons |
| ExprParse.ReadLookup | src/expr/lookup.c:133-168 | the same for lookups |
| ExprParse.ReadBitwise | src/expr/bitwise.c:171-210 | the same for bitwise expressions, whose last data attribute decides the result |
| ExprParse.ReadList | src/rule.c:380-396 | the loop over a list nest: each expression in order until one fails |
| ExprParse.ReadDynset | src/expr/dynset.c:225-295 | the recursive parser yields what the specification says, for every byte string |
| ExprParse.ReadExpr | src/expr.c:247-270 | name lookup and dispatch to the parser of the type, for every byte string whose name is one of the six or unknown to the library |
| WireRead.VerdictReads | src/expr/data_reg.c:126-167 | from any bytes: the code is attribute 1 of nest 2, the chain its attribute 2; which codes are known, and which kind each one reports |
| WireRead.ValueReads | src/expr/data_reg.c:169-185 | a register with a value is accepted exactly for 1 to 64 bytes in attribute 1 |
| WireAccept.DataAccepts | src/expr/data_reg.c:169-207 | a value of a wrong length fails at once; behind a right one a verdict still decides |
| WireRead.ImmediateReads | src/expr/immediate.c:146-184 | from any accepted bytes: register from attribute 1, and value, verdict or chain as nest 2 says |
| WireAccept.ImmediateAccepts | src/expr/immediate.c:146-184 | accepted exactly when the payloads pass their checks and the data, if there, parses and says what it is; refused exactly when the data parser fails |
| WireRead.CmpReads | src/expr/cmp.c:117-140 | from any accepted bytes: source register 1, operation 2, data 3 |
| WireAccept.CmpAccepts | src/expr/cmp.c:117-140 | which bytes are accepted, and which refused |
| WireRead.LookupReads | src/expr/lookup.c:133-168 | from any accepted bytes: set name 1, registers 2 and 3, set id 4, flags 5 |
| WireRead.BitwiseReads | src/expr/bitwise.c:171-210 | from any accepted bytes: registers 1 and 2, length 3, operation 6, mask 4, xor 5, data 7 |
| WireAccept.BitwiseAccepts | src/expr/bitwise.c:171-210 | refused exactly for the last register that is there: data, without it xor, without both the mask |
| WireRead.DynsetReads | src/expr/dynset.c:225-295 | from any accepted bytes: set name 1 and id 2, operation 3, registers 4 and 5, timeout 6, flags 9, expressions from nest 7 or else the list 10 |
| WireAccept.DynsetAccepts | src/expr/dynset.c:225-295 | accepted exactly when the payloads pass their checks and the inner expressions parse |
| WireRead.ExprReads | src/expr.c:247-270 | any bytes: no name, an unknown name, no data, or the result of the parser that the name selects |
| WireAccept.ListAccepts | src/rule.c:380-396 | a list parses exactly when every attribute has type 1 and parses; otherwise the expressions before the first that does not are kept |
| Exprs.FindOpsName | src/expr.c:254-258 | each of the six expression types is found again by the name it is sent with |
| Exprs.FindOpsOnly | src/expr.c:254-258 | and no other name is found |
| ExprRoundTrip.ParseDataValue | src/expr/data_reg.c:169-185 | a nested value parses back to the same bytes exactly when it has 1 to 64 of them |
| ExprRoundTrip.ParseDataVerdict | src/expr/data_reg.c:126-167 | a nested verdict parses back to its code and chain, or fails, as its code and the presence of a chain decide |
| ExprRoundTrip.KnownVerdicts | include/linux/netfilter/nf_tables.h:64-70 | the codes that come back, as numbers, and the kind that each one reports; any other code is refused |
| ExprRoundTrip.ParseBuiltImmediate | src/expr/immediate.c:146-184 | parsing a built immediate gives its normal form: the chain id is lost, everything else comes back |
| ExprRoundTrip.ParseBuiltBitwise | src/expr/bitwise.c:171-210 | parsing a built bitwise expression gives all its fields, or the failure of its last value |
| ExprRoundTrip.ParseBuiltList | src/rule.c:380-396 | parsing a built expression list gives the normal forms of its members in order |
| ExprRoundTrip.ParseBuiltDynset | src/expr/dynset.c:225-295 | parsing a built dynset gives its fields and the normal forms of its inner expressions, whichever attribute carried them |
| ExprRoundTrip.ParseBuiltExpr | src/expr.c:247-270 | parsing any built expression tree, at any depth, gives its normal form |
| ExprRoundTrip.NormOrRejected | src/expr/data_reg.c:126-207 | a built expression has a normal form exactly when a condition on its attributes holds, otherwise it is refused; it never aborts the parser or leaves defined behaviour |
| ExprRoundTrip.BuiltExprAccepted | src/expr.c:247-270 | parsing a built expression succeeds exactly under that condition |
| ExprRoundTrip.NormIsIdentity | src/expr/data_reg.c:126-207 | the normal form is the expression itself exactly when the expression is canonical |
| ExprRoundTrip.NormIsCanonical | src/expr.c:210-270 | the expression that comes back is one that comes back unchanged: one round trip reaches a fixed point |
| ExprRoundTrip.ExprRoundTrip | src/expr.c:210-270 | a built expression parses back to itself if and only if it is canonical: at most one of value and verdict, no chain id, a known verdict with a chain name exactly for jump and goto, and no empty value where the parser looks at the result |
| Rules.Rule.BuildPayload | src/rule.c:283-325 | the in-place builder writes exactly the encoding of the rule, whose attributes are those of Wire.RuleWire |
| Wire.RuleWire | src/rule.c:283-325 | a rule message, attribute by attribute: table 1, chain 2, handle 3, position 6, user data 7, expressions 4, compat 5, id 9, position id 10, in this order |
| WireLast.RuleFound | include/linux/netfilter/nf_tables.h:249-263 | what is found in a rule message under each number, and that nothing else is there |
| Rules.Rule.NlmsgParse | src/rule.c:439-511 | the parser leaves in a rule, fresh or not, exactly what the specification says, also after a failure; WireRead.RuleReads and RuleReadsPartly say what that is |
| WireRead.RuleReads | src/rule.c:439-511 | from any accepted bytes: each of the nine attributes, by its number, replaces what the rule had, the others stay, and expressions are appended |
| WireRead.RuleReadsPartly | src/rule.c:452-480 | after a failure table, chain and handle are replaced, the expressions before the failing one are appended, and nothing else has changed |
| WireAccept.RuleAccepts | src/rule.c:439-511 | accepted exactly when the payloads pass their checks, every expression parses and the compat payloads pass theirs |
| RuleRoundTrip.ParseBuiltRule | src/rule.c:439-511 | parsing a built rule message into a fresh rule succeeds exactly when its expressions are accepted, and then gives the same attributes, the normal forms of the expressions and the family of the header |
| RuleRoundTrip.RuleRoundTrip | src/rule.c:283-511 | a built rule parses back to itself if and only if it is canonical |
| RuleRoundTrip.OnlyLastAttributesCount | src/rule.c:339-378 | well-formed messages that agree on the last attribute of each known type parse alike |
| RuleRoundTrip.UnknownAttributesAreSkipped | src/rule.c:344-345 | an attribute above NFTA_RULE_MAX changes nothing wherever it stands |
| RuleRoundTrip.DifferentTypesCommute | src/rule.c:339-378 | neighbouring attributes of different types can change places, even in malformed messages |
| Rebuild.ParsedRuleIsStable | src/rule.c:283-511 | a rule that was parsed from a built message can be built again and comes back the same ever after |
| Rebuild.RebuildExpr | src/expr/dynset.c:170-192 | an expression that came back builds the same attributes if nothing was lost, otherwise strictly fewer bytes |
| Rebuild.RebuildRule | src/rule.c:283-511 | rebuilding a parsed rule gives the same bytes if and only if no expression, at any depth, lost an attribute |
| SetElems.BuildElemPayload | src/set_elem.c:304-379 | the in-place builder writes exactly the encoding of the element |
| SetElems.BuildElem | src/set_elem.c:393-403 | wraps the element in the nest of its index and returns where the nest starts |
| Wire.ElemWire | src/set_elem.c:304-379 | an element, attribute by attribute: flags 3, timeout 4, expiration 5, key 1, key end 10, verdict or value 2, user data 6, object 9, one expression 7 or several 11, in this order |
| Wire.ElemNestWire | src/set_elem.c:413-417 | element number i of a list, counted from 1, is a nest of type i |
| WireLast.ElemFound | include/linux/netfilter/nf_tables.h:422-436 | what is found in an element under each number |
| SetElems.ElemTableOverruns | src/set_elem.c:446-480 | the callback writes behind its table of 12 entries if and only if the first attribute that is neither skipped nor stored has a type from 12 to 18 |
| SetElems.OneAttributeOverruns | src/set_elem.c:451 | any single attribute of such a type does it |
| SetElems.BareHeaderOverruns | src/set_elem.c:451-479 | the concrete input: an attribute header of type 12 with nothing behind it |
| SetElems.ElemSet.Parse2 | src/set_elem.c:482-599 | adds the parsed element at the end of the set, or leaves the set as it was |
| WireRead.ElemReads | src/set_elem.c:482-599 | from any accepted bytes: key 1, flags 3, timeout 4, expiration 5, user data 6, object 9, key end 10, expressions from nest 7 or else the list 11 |
| WireRead.ElemDataReads | src/set_elem.c:523-538 | the data is what nest 2 says it is; an empty nest is taken for the kind that the key end or else the key reported |
| WireAccept.ElemAccepts | src/set_elem.c:482-599 | accepted exactly when payloads, keys, data and expressions are, and the data says what it is |
| SetElems.ElemSet.ParseAll | src/set_elem.c:626-640 | adds the elements up to the first that fails or has another type |
| WireAccept.ElemsAccept | src/set_elem.c:626-640 | the elements before the first that does not parse or is not in an attribute of type 1 are added, and how the loop ends |
| SetElemRoundTrip.BuiltData | src/set_elem.c:523-538 | the built data attribute comes back as value, verdict or chain, whatever kind the keys left behind, or is refused |
| SetElemRoundTrip.BuiltElemAccepted | src/set_elem.c:482-599 | a built element is accepted exactly when its keys, data and expressions are, and is otherwise refused with an error |
| SetElemRoundTrip.ParseBuiltElem | src/set_elem.c:482-599 | parsing a built element gives its normal form, VALUE, VERDICT or CHAIN told apart although they share one union and one attribute |
| SetElemRoundTrip.ElemRoundTrip | src/set_elem.c:304-599 | a built element parses back to itself if and only if it is canonical |
| SetElemRoundTrip.NormElemIsCanonical | src/set_elem.c:482-599 | the element that comes back is one that comes back unchanged |
| SetElemRoundTrip.BuiltListParses | src/set_elem.c:406-640 | a built list is accepted by the list parser if and only if it is empty or holds a single element that is accepted; otherwise it is refused, and an accepted first element stays in the set |
| ChunkedDump.BuildHeader | src/set_elem.c:381-390 | the in-place builder writes exactly the encoding of the header, whose attributes are those of Wire.HeaderWire |
| Wire.HeaderWire | src/set_elem.c:381-390 | the header holds the set name as attribute 2, the set id as 4 and the table as 1, in this order, as far as they are set |
| WireLast.MessageFound | include/linux/netfilter/nf_tables.h:447-454 | what is found in a whole message under 1, 2, 3 and 4: table, set, list of elements, set id |
| WireLast.DumpHeaders | src/set_elem.c:889-901 | every message of any dump that ends starts with these attributes, whatever follows |
| ChunkedDump.BuildPayload | src/set_elem.c:406-422 | all elements in one list nest, whose length is cut to 16 bits when they do not fit |
| ChunkedDump.TryElem | src/set_elem.c:871-886 | one element is written, and taken back when the list nest would pass 65535 bytes |
| ChunkedDump.WhatRemains | src/set_elem.c:880-883 | an element that fits 16 bits is taken back whole; of a longer one the whole multiples of 65536 bytes stay |
| ChunkedDump.FillNest | src/set_elem.c:902-915 | the loop stops at the specified position and the iterator stands there |
| ChunkedDump.BuildPayloadIter | src/set_elem.c:889-918 | one call: the bytes appended, the return value, and where the iterator stands afterwards |
| ChunkRuns.ChunkFills | src/set_elem.c:871-918 | when every element fits a list of its own, a call writes at least one element, at most 65535 bytes, and stops only where the next element would overflow |
| ChunkRuns.DumpEnds | src/set_elem.c:871-918 | repeated calls end if and only if every element nest, as far as its 16-bit length tells, and the list header fit 65535 bytes |
| ChunkRuns.FittingDumpEnds | src/set_elem.c:889-918 | so they end when every element fits a list of its own |
| DumpMessages.DumpAll | src/set_elem.c:889-918 | calling into one new message after the other until the result is 0 yields exactly the specified messages, for every set whose dump ends |
| DumpMessages.DumpedChunks | src/set_elem.c:889-918 | when every element fits a list of its own, each message is the header and one list nest around one chunk of the dump |
| DumpMessages.FittingSize | src/set_elem.c:871-886 | twice 65535 bytes behind the header are room enough for any call, the element that is taken back included |
| DumpMessages.DumpIsComplete | src/set_elem.c:889-918 | for a dump that ends, walking the list nests of all its messages in order finds every element of the set, each once and in order, and nothing else, if and only if each element nest and the list header fit 65535 bytes |
| DumpMessages.DumpedElementsParse | src/set_elem.c:482-918 | then each of them parses to the normal form of its element |
| ChunkRuns.DumpFills | src/set_elem.c:889-918 | no chunk is empty, every list nest has at most 65535 bytes, and filling is greedy |
| ChunkRuns.DumpIsShortest | src/set_elem.c:889-918 | no way of cutting the elements in order into lists that fit takes fewer messages |
| ChunkRuns.DumpIsMinimal | src/set_elem.c:889-918 | the chunks of the dump are themselves a way to cut the set into lists that fit, and no other way has fewer |
| ChunkRuns.SingleCall | src/set_elem.c:406-422 | a single call suffices exactly when all elements fit one list, and then writes what the builder for one message writes |
| ChunkRuns.SoundIffAllFit | src/set_elem.c:871-886 | every call progresses and writes a true 16-bit length if and only if each element nest and the 4-byte list header fit 65535 bytes |
| ChunkRuns.StuckElement | src/set_elem.c:871-886 | an element with 65524 bytes of user data is taken back by every call, so the dump never gets past it |
| ChunkRuns.IndexFitsType | src/set_elem.c:905 | the running index of a written element is at most 16383 and survives the flag bits of the type |
| LinuxList.ListAddBetween | include/linux_list.h:76-84 | the new node stands between its neighbours and the list is circular with inverse links |
| LinuxList.ListAdd | include/linux_list.h:94-97 | insertion right behind a node of the ring |
| LinuxList.ListAddTail | include/linux_list.h:107-110 | insertion right before a node of the ring |
| LinuxList.ListDel | include/linux_list.h:178-195 | removal of exactly that node, whose links are poisoned |
| LinuxList.HlistAddHead | include/linux_list.h:587-595 | the node becomes the first of its bucket and all back pointers agree |
| LinuxList.HlistDel | include/linux_list.h:536-550 | removal of exactly that node from its bucket through its back pointer alone |
| Lists.List.Add | src/chain.c:541-544 | the rule comes first |
| Lists.List.AddTail | src/chain.c:553-556 | the rule comes last |
| Lists.List.InsertAt | src/chain.c:559-562 | the rule comes right before the given one |
| Lists.List.AppendAt | src/chain.c:565-568 | the rule comes right behind the given one |
| Lists.List.Del | src/chain.c:547-550 | exactly the given rule is gone |
| Lists.List.LookupByIndex | src/chain.c:943-954 | the k-th rule, or NULL |
| Lists.Iter.constructor | src/set_elem.c:823-841 | the iterator stands at the first element, or nowhere when the list is empty |
| Lists.Iter.Next | src/set_elem.c:851-863 | the element at the position, then the head read as an element answers NULL once and the pass starts again |
| Lists.Iter.StepBack | src/set_elem.c:908-910 | the iterator stands one element earlier, also from behind the last one |
| Lists.PositionIsModulo | src/rule.c:729-742 | before call number k the iterator stands at k mod (n + 1) |
| Lists.CallNext | src/chain.c:987-1000 | call number k returns element k mod (n + 1), or NULL when that is n |
| ChainLists.ComputeDjbHash | src/chain.c:1052-1060 | the loop computes the hash of the whole name, wrapping at 32 bits |
| ChainLists.HashGrows | src/chain.c:1052-1060 | the hash of a name, one signed character at a time from 5381 by the factor 33 modulo 2 to the 32 |
| ChainLists.ChainList.constructor | src/chain.c:1017-1031 | an empty list with 512 empty buckets |
| ChainLists.ChainList.Add | src/chain.c:1063-1069 | in front of the list and of its bucket; list and index stay in agreement |
| ChainLists.ChainList.AddTail | src/chain.c:1072-1078 | at the end of the list but in front of its bucket; list and index stay in agreement |
| ChainLists.ChainList.Del | src/chain.c:1081-1085 | gone from the list and from its bucket; list and index stay in agreement |
| ChainLists.ChainList.LookupByName | src/chain.c:1104-1117 | the search in one bucket finds what a search in all members by order of insertion finds |
| ChainLists.FirstNamedMeans | src/chain.c:1104-1117 | NULL exactly when no member has the name, else the latest inserted such member |
| ChainHistory.HistoryInvariant | src/chain.c:1062-1085 | after any history the index holds exactly the list members, latest insertion first |
| ChainHistory.LookupIsLatest | src/chain.c:1104-1117 | after any history the lookup returns the most recently inserted present chain with the name, or NULL exactly when there is none |
| ChainLists.BucketsAreMembers | src/chain.c:1052-1085 | a chain is in the list if and only if it is in some bucket, and that is the bucket of its name's hash |
| ChainLists.ValidIsExact | src/chain.c:1062-1085 | the nodes linked from the 512 first pointers are exactly the list members, each once, each in the bucket of its hash |
| ChainHistory.Replay | src/chain.c:1062-1085 | performing any history on a new list yields the list and index the two lemmas speak about, with buckets that hold exactly the members |
| Batches.Page.Next | src/batch.c:105-106 | the page accepts the pending message exactly when it then holds at most its limit |
| Batches.Batch.constructor | src/batch.c:62-84 | one empty page, which is the current one |
| Batches.Batch.AddPage | src/batch.c:53-59 | the new page is the list tail and the current one, and num_pages is the list length |
| Batches.Batch.Update | src/batch.c:101-123 | the pending message goes whole to the last page if it fits there, otherwise whole to a new page; the other pages keep their bytes |
| Batches.Batch.WriteMessage | src/batch.c:126-129 | the caller's message lies at the current position; nothing accounted for has changed |
| Batches.CopyLast | src/batch.c:116 | the message that did not fit is copied to the start of the new page |
| Batches.Batch.IovecLen | src/batch.c:138-147 | the number of pages without the last one if that is empty |
| Batches.Batch.Iovec | src/batch.c:150-164 | buffer and bytes of the first pages in list order |
| BatchRuns.RunKeeps | src/batch.c:101-123 | after any run the pages in order hold, whole and once, the messages that are no longer than a page |
| BatchRuns.NothingLost | src/batch.c:101-123 | nothing is lost if and only if no message is longer than a page |
| BatchRuns.PagesFit | src/batch.c:101-123 | every page holds at most page_size bytes |
| BatchRuns.RunPacked | src/batch.c:106-118 | every page before the last holds a message, and two neighbours hold more than page_size bytes |
| BatchRuns.PageCount | src/batch.c:101-123 | T bytes of messages take at most 2 * T / page_size + 1 pages |
| BatchRuns.SendAll | src/batch.c:101-123 | writing any messages that fit the overrun area, with an update after each, leaves the pages that the lemmas about runs speak about |
| BatchRuns.Transmit | src/batch.c:101-164 | the buffers of nftnl_batch_iovec, as many as nftnl_batch_iovec_len says, are one after the other the messages in order, without those longer than a page |
| BatchRuns.SendsFilledPages | src/batch.c:138-147 | looking at the last page only, iovec_len counts exactly the pages that hold messages |
| Udata.GuardIsRoom | src/udata.c:77-78 | the length check protects the buffer if and only if it is empty, too small for any attribute, or has room for the longest one |
| Udata.GuardIs | src/udata.c:77-78 | the length check passes for at most 255 bytes that fit the whole buffer together with the header |
| Udata.TripleBytes | src/udata.c:80-85 | a value on the wire: type, 8-bit length, bytes |
| Udata.FillBeyondGuard | src/udata.c:72-88 | a buffer of 4 bytes, filled by one value of 2, for which the check passes without room |
| Udata.Buffer.constructor | src/udata.c:20-31 | an empty buffer of the given size |
| Udata.Buffer.Put | src/udata.c:72-88 | appends type, length and value when the check passes, otherwise changes nothing |
| Udata.Buffer.PutStrz | src/udata.c:91-95 | the same for a string with its NUL |
| Udata.Buffer.PutU32 | src/udata.c:98-102 | the same for a 32-bit number |
| Udata.Buffer.NestStart | src/udata.c:155-163 | appends an empty attribute and returns where it starts |
| Udata.Buffer.NestEnd | src/udata.c:166-169 | stores the length of what followed, cut to 8 bits, and changes no other byte |
| Udata.WriteEntries | src/udata.c:72-169 | any bracketed use of puts and nests leaves the encoding of the entries behind the old content |
| Udata.Parse | src/udata.c:139-152 | one pass calls back for a prefix of the attributes in order; every answer but the last is at least 0, the result is the last answer, or 0, and it is all of them unless that answer is negative |
| Udata.WalkEntries | include/libnftnl/udata.h:118-121 | the walk over written entries sees exactly those attributes in order |
| Udata.DescribesIff | src/udata.c:139-169 | a walk, nests included to any depth, sees the entries if and only if the bytes are what writing them leaves and no value or nest content exceeds 255 bytes |
| Devices.DeviceList.ParseDevs | src/chain.c:674-708 | the names in order with a NULL behind them and in every unused slot, across all doublings; on failure nothing changes |
| Devices.Double | src/chain.c:688-696 | the doubled array keeps the names and clears the rest |
| Devices.DeviceList.SetDevices | src/chain.c:274-293 | scanning to NULL finds all names, and the copy holds them |
| Devices.DeviceList.BuildDevs | src/chain.c:504-512 | the loop writes the device nest of the names |
| Devices.DevicesRoundTrip | src/flowtable.c:413-448 | parsing a built device nest gives the same names in the same order |
| Hooks.BuildHook | src/chain.c:494-514 | the hook nest is written only for a chain with hook number and priority, with one device or the device nest |
| Wire.HookWire | include/linux/netfilter/nf_tables.h:150-157 | a hook: number 1, priority 2, one device 3 or the devices as nest 4 |
| Wire.DeviceWire | include/linux/netfilter/nf_tables.h:1730-1734 | each device of the nest is an attribute of type 1 with its name and a NUL |
| WireRead.HookReads | src/chain.c:710-740 | from any accepted bytes: number 1, priority 2, device 3, devices from nest 4 |
| WireAccept.HookAccepts | src/chain.c:674-740 | accepted exactly when the payloads pass their checks and every attribute of the device nest has type 1 |
| Hooks.HookRoundTrip | src/chain.c:494-740 | a chain message carries the hook exactly when nothing is set, or hook number and priority are and not both kinds of devices |
| Texts.PrefixShows | src/expr/data_reg.c:32-41 | the flag that suppresses the prefix 0x changes the text of a value exactly when the value has a byte |
| Texts.PrefixInDynset | src/expr/dynset.c:336-339 | an expression prints differently inside a dynset than in a rule exactly when it is an immediate with a value of at least one byte |
| Texts.PaddedDenotes | src/expr/data_reg.c:39-40 | zero-padded hexadecimal has the given width and denotes the number when that fits |
| Texts.WordDenotes | src/expr/data_reg.c:39-40 | the eight digits printed for a word denote the number whose host-order bytes are the next four bytes of the value, 0 past its end |
| Texts.CharDenotes | src/rule.c:622-624 | the two digits printed for a character that is not printable denote it |
| Texts.DigitsDenote | src/rule.c:576-600 | a printed number denotes the number, in decimal and in hexadecimal, and starts with 0 only when it is 0 |
| Texts.DigitIs | src/expr/data_reg.c:39-40 | the sixteen digits, lower case |
| TextFormats.WordTextIs | src/expr/data_reg.c:39-40 | a word of a value is the expansion of "%s%.8x ": the prefix and two digits for each of its four bytes, the last byte first |
| TextFormats.ValueIs | src/expr/data_reg.c:27-44 | a value is printed four bytes at a time from its start |
| TextFormats.VerdictNames | src/utils.c:182-210 | the names of the verdicts by their codes |
| TextFormats.OtherNames | src/utils.c:25-40 | the names of families, comparisons and dynset operations by their numbers |
| TextFormats.ExprIsShown | src/expr.c:273-289 | the text of any expression, at any depth, is what the format strings of its printer expand to, one after the other |
| TextFormats.LineIs | src/rule.c:557-607 | the first line of a rule is family, table, chain, handle, position, id and position id, in this order and as far as they are set, one blank between two |
| TextFormats.RuleIsShown | src/rule.c:548-636 | the text of a rule: its line, its expressions in brackets from the first to the last, its user data |
| TextFormats.CharsShown | src/rule.c:618-627 | user data: characters from 32 to 126 as they are, every other byte as a hexadecimal escape |
| TextFormats.ElemIsShown | src/set_elem.c:703-755 | the text of an element, format by format |
| TextFormats.SetIsShown | src/set.c:787-836 | the text of a set: its line, format by format, and its elements, each behind a tab |
| Printer.Snprintf | include/utils.h:54-60 | the primitive: full length returned, what fits written, NUL behind it |
| Printer.PrintedMeans | include/utils.h:54-60 | what the printers leave: the text and a NUL when both fit, else the first size - 1 characters and a NUL, and every other byte as it was |
| Printer.Account | include/utils.h:54-60 | the macro adds the full length to the offset and never lets remain pass below 0 |
| Printer.Compose | include/utils.h:54-60 | a nested truncating printer in what remains of a buffer extends what the whole buffer shows, truncated or not |
| Printers.ValueSnprintf | src/expr/data_reg.c:27-44 | for every buffer size: full length returned, the first size - 1 characters and a NUL left |
| Printers.VerdictSnprintf | src/expr/data_reg.c:46-62 | the same for verdicts |
| Printers.ImmediateSnprintf | src/expr/immediate.c:187-213 | the same for immediates |
| Printers.CmpSnprintf | src/expr/cmp.c:180-195 | the same for comparisons |
| Printers.LookupSnprintf | src/expr/lookup.c:171-191 | the same for lookups |
| Printers.BitwiseSnprintf | src/expr/bitwise.c:255-275 | the same for bitwise expressions; an unknown operation prints nothing |
| Printers.DynsetSnprintf | src/expr/dynset.c:311-347 | the same for a dynset and the expressions inside, at any depth |
| Printers.ExprSnprintf | src/expr.c:273-289 | the same for any expression, and a failing printer counts as no text |
| Printers.PrintUserdata | src/rule.c:614-633 | any user data bytes extend what the buffer shows |
| Printers.RuleSnprintf | src/rule.c:548-666 | for every buffer size and rule: full length returned, the first size - 1 characters and a NUL left, nothing else touched |
| Printers.ElemSnprintf | src/set_elem.c:703-755 | the same for a set element |
| Printers.SetSnprintf | src/set.c:787-867 | the same for a set with any number of elements |
| Fprintf.FprintfWith | src/utils.c:276-310 | with any callback that returns the full length and leaves what fits, the complete text is emitted in at most two passes |
| Fprintf.FprintfObject | src/utils.c:276-310 | the same with the printers of expressions, rules and sets writing into the buffer in memory, and the result when they refuse the output type |

## Left out

- Of the expression types only immediate, cmp, lookup, bitwise, notrack and dynset are modelled; the others, and the stateful objects, are flat records with the same builder and parser pattern.
- Rule messages of a chain, table, flowtable or object besides the hook and device nests, and the set header with its own expression list: the same flat pattern.
- Expressions and set elements are values here: that a parser or setter updates an expression object in place, and that two pointers may reach the same object, is not captured. Rules, sets, lists, batches, buffers and device arrays are objects.
- libmnl is not part of this repository: its attribute, nest, validation and batch calls are modelled as documented, on a little-endian host. A string payload without NUL ends with the payload here, where C would read on.
- Failure of malloc, calloc, realloc and strdup, freeing, and the setters and getters.
- ExprParse.ReadVerdict: the attribute table that src/expr/data_reg.c:129 leaves uninitialised is taken as empty.
- ExprParse.ReadData: the data register union is modelled as value bytes, verdict and chain name; an expression or element that is accepted while the value bytes of one of its registers are those of a pointer is `Undefined`.
- ExprParse.ReadList: an expression that ends in `Undefined` ends its list at once; that C would go on, and might refuse the whole object because of a later expression, is not captured.
- ExprBuild.BuildImmediate: value and verdict that were both set are two attributes here, while in C they overlap in one union; the round trip excludes that case.
- ChainLists.ChainList.Add: the name of a chain does not change while it is in a list; the source does not enforce this. The set list of src/set.c:897-1048 has the same code and is not repeated.
- Lists.Iter.Next: the list does not change between two calls of an iterator.
- Batches.Batch.Update: num_pages is not cut to 32 bits, and the message that the caller builds must fit the buffer of the page, as the overrun area is meant to ensure.
- Udata.Buffer.Put: when the check of the source passes, the caller must have left enough room; nftnl_udata_buf_put, which trusts its length argument, is not modelled.
- Udata.Parse: data that ends inside an attribute, where the loop of the source reads past the end, is excluded.
- Devices.DeviceList.ParseDevs: the capacity, an int in the source, is unbounded.
- Printers.ValueSnprintf: the bytes behind a value in its last word are 0, as in an object that never held a longer value; lengths do not reach 2^31.
- Printers.RuleSnprintf: a string attribute that is printed without being set shows as glibc shows a null pointer.
- Fprintf.FprintfWith: the output stream never fails, and the callback is a function of the buffer size; that it may change memory besides the buffer is not captured.
- ExprParse.ReadExpr: an expression of a type that the library knows but this model does not is refused here, where the source hands it to the parser of that type.
- Exprs.FindOpsName: the table of operations has six entries here.
- SetElems.ElemSet.Parse2: the element that is added is a value; and an element that C marks as having a chain whose pointer is null, which an empty data nest behind a key that parsed as a jump leaves, is `Undefined` here.
- nftnl_set_elems_nlmsg_parse reads the header of a list message before the loop that `SetElems.ElemSet.ParseAll` models; the header is not modelled.
- The RCU variants, splicing and moving of lists, cloning of sets, string tables for input, and the JSON and XML stubs.
- src/obj/tunnel.c and the printers of src/obj and src/expr/ct.c.
