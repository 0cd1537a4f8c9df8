# Verified models of msldap

msldap is an LDAP client for Active Directory. This project models four parts of it in Dafny and
proves what they are for.

- **The binary layout codec** (`cstruct`): layouts are data (packed and arbitrary-width integers,
  characters, arrays of fixed, computed or null-terminated length, nested structures, bit fields).
  `Layout` says what reading and writing a layout means, `ByteOrder` which byte and `BitFields` which
  bit counts for what, `Structures` has the loops and the bit buffer, `Offsets` the stated field offsets, `Seeks`, `SeekLimits` and `CutRuns` when seeking to them
  does harm, `StructureRoundTrip` the round trip, `Compiler` the generator of specialised readers,
  `GeneratedReader` what they read, `CompilerTheorem` that against the interpreter; `CompilerLimits`
  says where they part. `Expression` is the text calculator for array lengths. `Acls` puts security
  descriptors on top, with the layouts as they are declared.
- **The LDAP filter pipeline**: `FilterTree` (printing, matching, simplifying in place),
  `FilterGrammar` (the grammar without a memo table), `FilterParser` (the parser with its table),
  `FilterTexts` and `FilterLanguage` (which texts it reads, and as what), `PrintParse` (parsing what was
  printed), `Stripping`, `StrippedFilters` and `StrippedNames` (white space), `Query` and `Translation` (octets and the
  filters of RFC 4511), `Builders` (from a builder method to the request). `Characters` spells out the
  letters, digits and blanks that all of these test for.
- **The wire**: `Ber` and `Framing` (messages and packets), `Connection` (mailboxes), `Stream` (from bytes to
  mailboxes) and `PagedSearch` (the cookie loop). A connection is a system of steps, since nothing
  else runs between two awaits of a coroutine; decoding one whole message is an unknown function, of
  which no more is assumed than that it undoes encoding on the messages the server sends.
- **The directory index and the trust walk** (`Directory`, `TrustWalk`).

Code that works by changing things is a class or a method with loops here, proved against a function;
the properties are lemmas about the functions. An exception is `None` or `Fail`. The generated source
of the layout compiler is a datatype of blocks and getters with an interpreter. In the parser, rules
of one shape share a method, and the loops and character tests that its generated code repeats are
methods of their own.

Where the code does not do what its documentation or its use suggests, the code is modelled as it is:

- `_calc_offsets` and `_calc_size` do not notice that a field between two runs of bit fields ends a
  storage unit, so that later offsets can be short (`StructureRoundTrip.SharedUnitBreaksRoundTrip`,
  `Offsets.InPlaceExactly`). That does harm only where such an offset is sought for a field that takes
  bytes, or in the middle of the last run of a structure (`SeekLimits.SeeksExactly`). A structure whose
  last run is cut in that way has the right length, so that a reader can be sent back on its way behind
  it: there the bytes decide (`CutRuns.DependsOnBytes`).
- Writing a bit field masks nothing, and a run that is longer than its unit goes on in the same word
  (`BitFields.PutIs`, `BitFields.PutOnTop`).
- The generated readers differ for scalar char, arrays of one int24/int48, null-terminated arrays of
  those (`CompilerTheorem.ReadsExactly`), bit fields around a structure, and an array of structures
  that is counted by its own name (`CompilerLimits`).
- A Not over a group parses to None, and white space behind `&` or `|` replaces the members
  (`PrintParse.NegatedGroupIsLost`, `PrintParse.FillTakesOver`); through `LDAPBase.parse`, which strips
  spaces and line feeds first, only a tab gets there, or a space that stripping puts back.
- A builder with an empty text asks for something else or fails, the line feeds of a text are stripped,
  and its spaces can come back at another place (`Builders.BuilderExactly`, `Builders.SignIsTaken`).
- Of an extensible match, what stands between the colons is always taken for the rule: `:dn` is sent as
  a rule named dn, an absent type as an empty one, and a match without a rule, or with `:dn` and a rule,
  raises an exception (`Translation.ItemExactly`, `Translation.AcceptedExactly`).
- A backslash before a pair like `+5` is read as an escape (`Query.EncodedIsOctets`).
- A last message of less than six bytes is not cut off (`Framing.MessagesExactly`).
- An answer to an id that is not registered yet is missed, and a coroutine that waits when the reading
  task is cancelled is never woken (`Connection.EarlyAnswerIsMissed`, `Connection.NobodyWokenLater`).
- `has_control` needs the self-relative bit (`Controls.HasControlExactly`).
- Names with an escaped comma hang at another place of the tree, and so do the names below them, so that
  they can be found below other names and not below their own (`Directory.ChildPath`,
  `Directory.CandidateExactly`).

## Model

| member | source | states |
|---|---|---|
| CompilerTheorem.CompilerPreservesMeaning | msldap/external/bloodhoundpy/lib/cstruct.py:1486-1581 | for every supported layout that the compiler can handle and in which no seek to a stated offset goes astray, from every byte string and position the generated class and `Structure._read` (which seeks) both miss a byte, or give the same instance and end position |
| CompilerTheorem.CompilerExactly | msldap/external/bloodhoundpy/lib/cstruct.py:782-795 | in any other layout, on every input that holds all bytes of its instance, they agree if no seek goes astray in that instance; and only then, unless a structure inside ends in a run of bit fields that its own plan of offsets cuts |
| GeneratedReader.CompiledExactly | msldap/external/bloodhoundpy/lib/cstruct.py:1486-1581 | every layout without arrays of bit fields compiles and no other; and its generated class reads field after field, each from its own bytes, in the three ways of its own that `GotFields` states: ints for some fields, a bit buffer kept over structures, loops without an end |
| GeneratedReader.BlocksRun | msldap/external/bloodhoundpy/lib/cstruct.py:1505-1578 | the invariant behind it: the blocks generated for the fields still to come, with any block being collected, read just those fields from any state of the bit buffer |
| CompilerTheorem.ReadsExactly | msldap/external/bloodhoundpy/lib/cstruct.py:1627-1665 | for any supported layout in which no bit field is taken from a unit held over a structure, and no array of structures looks itself up in its count, on every input that the interpreter reads: the generated class gives the same if and only if no field of the instance, at any depth, is a scalar char or an array of one int24/int48, or a null-terminated array of those |
| CompilerTheorem.SideBySide | msldap/external/bloodhoundpy/lib/cstruct.py:1505-1578 | the two readers field by field, from any states of their bit buffers that they can be in together |
| GeneratedReader.ManyRun | msldap/external/bloodhoundpy/lib/cstruct.py:1521-1537 | the generated loop over an array of structures |
| CompilerProofs.BlockReads | msldap/external/bloodhoundpy/lib/cstruct.py:1583-1705 | one read, one unpack and indexed picks give every field of a block its own value, or raise when a byte is missing |
| CompilerProofs.FormatUnpacks | msldap/external/bloodhoundpy/lib/cstruct.py:1640-1660 | the run-length-coalesced format unpacks a block to the numbers of its fields, whatever run is being counted |
| CompilerProofs.AssignsFind | msldap/external/bloodhoundpy/lib/cstruct.py:1605-1700 | the data and buffer indices of the getters pick out each field from the whole buffer and the whole unpacked list |
| Compiler.GenReadBlock | msldap/external/bloodhoundpy/lib/cstruct.py:1583-1705 | the loop that grows format, getters and both offsets yields the recursively specified block |
| Compiler.GenStructClass | msldap/external/bloodhoundpy/lib/cstruct.py:1486-1581 | the loop over the fields yields the recursively specified list of blocks, or raises where that does |
| CompilerLimits.OneFieldExactly | msldap/external/bloodhoundpy/lib/cstruct.py:1627-1665 | for a structure of one field the two readers agree on every input, complete or not, if and only if the field is no scalar char, no array of one int24/int48 and no null-terminated array of those |
| CompilerLimits.NeverEndsFails | msldap/external/bloodhoundpy/lib/cstruct.py:1743-1752 | the generated loop over a null-terminated int24/int48 array compares a list with zero: from every position of every input it goes on until a byte is missing |
| CompilerProofs.LoopReads | msldap/external/bloodhoundpy/lib/cstruct.py:1715-1742 | the generated loops for null-terminated packed integers and characters, element by element, read what `_read_0` reads |
| CompilerLimits.HeldUnitExactly | msldap/external/bloodhoundpy/lib/cstruct.py:1511-1561 | in a layout with at most one run of bit fields that the generated class takes as a whole from a unit read before a structure, with any fields before it and fields of known length behind it: on every input that the interpreter reads, the generated reader agrees if and only if there is no such run |
| CompilerLimits.HeldUnitExample | msldap/external/bloodhoundpy/lib/cstruct.py:1511-1561 | a three-byte layout on which it never agrees |
| CompilerLimits.HeldUnitByChance | msldap/external/bloodhoundpy/lib/cstruct.py:1511-1561 | where the run goes on behind the held unit the bytes decide: one input on which the readers agree and one on which they do not |
| CompilerLimits.OwnNameExample | msldap/external/bloodhoundpy/lib/cstruct.py:1521-1537 | an array of structures counted by its own name, which is also that of a constant: the interpreter reads it, the generated class fails |
| ExpressionContexts.OwnLetter | msldap/external/bloodhoundpy/lib/cstruct.py:583-628 | the value of a count expression that lacks a letter of a name does not depend on what is known under that name |
| ExpressionContexts.CountExactly | msldap/external/bloodhoundpy/lib/cstruct.py:994-1006 | the length of an array is the value of its expression, none where that is negative, and an exception where the expression raises one |
| ExpressionContexts.NegativeCount | msldap/external/bloodhoundpy/lib/cstruct.py:994-1006 | with a negative count nothing is read, from anywhere |
| StructureRoundTrip.ReadUndoesWrite | msldap/external/bloodhoundpy/lib/cstruct.py:804-860 | for every supported layout and every consistent instance, reading what `_write` wrote returns the instance and takes exactly those bytes if no seek to a stated offset goes astray in it; and only then, unless a structure inside ends in a run of bit fields that its own plan of offsets cuts |
| StructureRoundTrip.HarmlessRoundTrip | msldap/external/bloodhoundpy/lib/cstruct.py:804-860 | in a layout in which no seek can go astray it is so for every consistent instance |
| StructureRoundTrip.WithoutYIsHarmless | msldap/external/bloodhoundpy/lib/cstruct.py:722-745 | `a:4; x; b:4` is such a layout, although b is taken to share the unit of a |
| StructureRoundTrip.FieldsRoundTrip | msldap/external/bloodhoundpy/lib/cstruct.py:804-860 | the same for any tail of the fields, in the middle of a run of bit fields, for any stated offsets |
| StructureRoundTrip.SharedUnitBreaksRoundTrip | msldap/external/bloodhoundpy/lib/cstruct.py:722-745 | an instance that is not read back: the offset stated behind a second run of bit fields is one unit short |
| StructureRoundTrip.SharedUnitIsSupported | msldap/external/bloodhoundpy/lib/cstruct.py:722-745 | that layout is supported and that instance consistent, and a seek goes astray in it |
| RoundTrip.ScalarsRoundTrip | msldap/external/bloodhoundpy/lib/cstruct.py:1044-1082 | arrays of packed integers, arbitrary-width integers and characters are read back |
| RoundTrip.UntilZeroRoundTrip | msldap/external/bloodhoundpy/lib/cstruct.py:1060-1082 | null-terminated arrays without a zero are read back |
| Offsets.InPlaceExactly | msldap/external/bloodhoundpy/lib/cstruct.py:722-745 | every stated offset and the stated end are right if and only if no run of bit fields is believed to share the unit of an earlier one |
| Seeks.SeeksDoNoHarm | msldap/external/bloodhoundpy/lib/cstruct.py:782-795 | where every offset that is sought, for a field that takes bytes or in a last run, is that of its field: on every input, reading with seeks and reading on from field to field both miss a byte or give the same |
| Seeks.SpanFieldsIs | msldap/external/bloodhoundpy/lib/cstruct.py:772-808 | either reader ends where the layout and the array lengths of what it read say, whatever the bytes |
| SeekLimits.SeeksExactly | msldap/external/bloodhoundpy/lib/cstruct.py:782-795 | the two readers agree on an input that holds all bytes if and only if no seek goes astray in its instance, under the exception above |
| SeekLimits.ShortFields | msldap/external/bloodhoundpy/lib/cstruct.py:722-770 | the invariant behind it: no stated offset or length is ever ahead, so that a reader sent astray, and the stated length, stay short to the end |
| SeekLimits.UnsharedIsHarmless | msldap/external/bloodhoundpy/lib/cstruct.py:722-745 | where no unit is believed to be shared no seek goes astray |
| CutRuns.DependsOnBytes | msldap/external/bloodhoundpy/lib/cstruct.py:722-745 | the exception: of a layout with such a structure, one input is read right and another of the same shape is not |
| Offsets.Consumed | msldap/external/bloodhoundpy/lib/cstruct.py:772-808 | a layout of fixed length takes exactly the bytes its types and units say |
| Structures.CalcOffsets | msldap/external/bloodhoundpy/lib/cstruct.py:722-745 | the loop states, for each field, the offset that the plan of offsets gives |
| Structures.CalcLength | msldap/external/bloodhoundpy/lib/cstruct.py:747-770 | the loop computes the length of the structure or raises a TypeError |
| Structures.ReadStructure | msldap/external/bloodhoundpy/lib/cstruct.py:772-808 | the loop with its seeks, bit buffer and dictionary gives the value and position of the specification |
| Structures.ReadTyped | msldap/external/bloodhoundpy/lib/cstruct.py:994-1006 | the `_read` of arrays, with count expressions, fixed counts and null terminators |
| Structures.WriteStructure | msldap/external/bloodhoundpy/lib/cstruct.py:810-829 | the loop with its flushes writes the bytes of the specification |
| Structures.ReadInts0 | msldap/external/bloodhoundpy/lib/cstruct.py:1054-1066 | the null-terminated loop over integers reads up to the first zero |
| Structures.BitBuffer.Read | msldap/external/bloodhoundpy/lib/cstruct.py:925-945 | updates the buffer in place and returns the bits the specification takes |
| Structures.BitBuffer.Write | msldap/external/bloodhoundpy/lib/cstruct.py:947-957 | updates the buffer in place as the specification puts the bits |
| Structures.BitBuffer.Flush | msldap/external/bloodhoundpy/lib/cstruct.py:959-963 | writes the stored word and leaves the buffer idle |
| BitFields.RunRoundTrip | msldap/external/bloodhoundpy/lib/cstruct.py:925-963 | any run of unsigned bit fields that fits one unit, in either byte order: written, flushed and read back it gives every value, and the stored word stays below 2^(8*size) |
| BitFields.TakeWhatWasPut | msldap/external/bloodhoundpy/lib/cstruct.py:925-957 | what was put into a unit at one point is what is taken from the final word at that point |
| BitFields.WordIsSum | msldap/external/bloodhoundpy/lib/cstruct.py:947-963 | the stored word is the sum of the values, each at its own power of two: from the lowest bit up in little endian, from the highest bit down in big endian |
| BitFields.TakenIs | msldap/external/bloodhoundpy/lib/cstruct.py:925-945 | what is taken out of any word, and what is left: the next bits from below, or big-endian from above |
| BitFields.PutIs | msldap/external/bloodhoundpy/lib/cstruct.py:947-957 | what any value puts into the word, bit by bit: nothing is masked, so that a value that is too great runs into its neighbours |
| BitFields.PutOnTop | msldap/external/bloodhoundpy/lib/cstruct.py:947-951 | a put behind a full unit goes into the same word, which is neither written out nor cleared |
| BytesInteger.Parse | msldap/external/bloodhoundpy/lib/cstruct.py:1197-1216 | the shifting loop decodes each group in either byte order, signed or not |
| BytesInteger.Pack | msldap/external/bloodhoundpy/lib/cstruct.py:1219-1242 | the digit loop encodes each number |
| BytesInteger.RoundTrip | msldap/external/bloodhoundpy/lib/cstruct.py:1197-1242 | `parse` of `pack` returns the list if and only if every number is in range, for every size, byte order and signedness |
| BytesInteger.ParsePack | msldap/external/bloodhoundpy/lib/cstruct.py:1197-1242 | `pack` of `parse` returns the bytes |
| BytesInteger.PackedLength | msldap/external/bloodhoundpy/lib/cstruct.py:1219-1242 | the packed length is size times count |
| Bytes.DecodeEncode | msldap/external/bloodhoundpy/lib/cstruct.py:1202-1242 | one number decodes to itself if and only if it is in range |
| ByteOrder.DecodeIs | msldap/external/bloodhoundpy/lib/cstruct.py:1197-1216 | "Little" is the byte of weight 1 first and "Big" the one of greatest weight first: the number is the sum of the bytes by those weights, less 256^size if it is signed and in the upper half |
| ByteOrder.EncodeAt | msldap/external/bloodhoundpy/lib/cstruct.py:1219-1242 | the byte of weight 256^k, at place k or counted from the end, is that digit of the number, in two's complement |
| Layout.PackedExactly | msldap/external/bloodhoundpy/lib/cstruct.py:1044-1082 | which numbers a packed type can hold and in how many bytes, type by type |
| Layout.EndsEarly | msldap/external/bloodhoundpy/lib/cstruct.py:1044-1052 | of a stream that ends early packed integers raise, characters and integers of any number of bytes take what is there |
| Layout.OneEndsEarly | msldap/external/bloodhoundpy/lib/cstruct.py:1041-1042 | the same for one alone |
| Layout.NoTerminator | msldap/external/bloodhoundpy/lib/cstruct.py:1054-1110 | a null-terminated array without its terminator raises, but for integers of any number of bytes, for which the end of the stream counts as zero |
| Layout.CharOfNumber | msldap/external/bloodhoundpy/lib/cstruct.py:1113-1120 | a number is written to a character as to an unsigned byte |
| Expression.Evaluate | msldap/external/bloodhoundpy/lib/cstruct.py:583-602 | the loop over the text with its stack of levels |
| ExpressionProofs.EvaluatesTree | msldap/external/bloodhoundpy/lib/cstruct.py:583-628 | rewriting and splitting the text of any expression gives the value of its tree: left-associative, binding tighter from `+` to `<<`, and an exception exactly for unknown names, negative shifts, division and negative values in parentheses |
| ExpressionProofs.NameAlone | msldap/external/bloodhoundpy/lib/cstruct.py:604-628 | a name alone: what is known under it, else the hexadecimal number behind 0x, else the constant, else the numeral |
| Bits.EachBit | msldap/external/bloodhoundpy/lib/cstruct.py:558-567 | `&`, `\|` and `^` bit by bit |
| Bits.BitIs | msldap/external/bloodhoundpy/lib/cstruct.py:558-567 | the k-th bit of a number, negative ones too, is the last of its k-th half rounded down |
| Bits.ShlIs | msldap/external/bloodhoundpy/lib/cstruct.py:558-567 | `<<` multiplies by two each time |
| Bits.ShrIs | msldap/external/bloodhoundpy/lib/cstruct.py:558-567 | `>>` divides by two each time, rounding down |
| Acls.DescriptorReads | msldap/external/bloodhoundpy/acls.py:404-428 | a descriptor whose parts lie at any places by MS-DTYP 2.4.6 is recovered: header, owner, group and both lists with every entry, its fields and its data |
| Acls.AssembledIsLaidOut | msldap/external/bloodhoundpy/acls.py:324-374 | every descriptor has such a layout |
| Acls.PartsWhereStated | msldap/external/bloodhoundpy/acls.py:404-428 | of any data: a descriptor that is read has each part if and only if the header states an offset for it |
| Acls.AclHasAll | msldap/external/bloodhoundpy/acls.py:443-451 | of any data: a list that is read has as many entries as it states |
| Acls.AclReads | msldap/external/bloodhoundpy/acls.py:443-451 | a list by MS-DTYP 2.4.5 with any entries, and any unused bytes behind them: exactly its entries, in order |
| Acls.AceReads | msldap/external/bloodhoundpy/acls.py:580-603 | an entry of type 0, 1, 5 or 6, or of another type, which keeps its data |
| Acls.AppendAces | msldap/external/bloodhoundpy/acls.py:448-451 | the loop appends the entries that are read one behind the other |
| Acls.SidReads | msldap/external/bloodhoundpy/acls.py:335-344 | a security identifier with any number of sub-authorities |
| Acls.SidWritten | msldap/external/bloodhoundpy/acls.py:335-344 | the declared layout writes exactly the bytes of MS-DTYP 2.4.2 |
| Acls.MaskedIs | msldap/external/bloodhoundpy/acls.py:367-373 | `name & mask * factor` is (name & mask) * factor, through the text evaluator |
| Acls.GuidSizes | msldap/external/bloodhoundpy/acls.py:367-373 | so each GUID has sixteen bytes if its flag is set and none otherwise |
| PlainLayouts.ReadsInstance | msldap/external/bloodhoundpy/lib/cstruct.py:1458-1484 | the generated class reads back every consistent instance of a layout without bit fields |
| Controls.HasControlExactly | msldap/external/bloodhoundpy/acls.py:399-402 | `has_control(k)` is bit 15-k for all sixteen k if and only if the self-relative bit is set |
| FilterTree.FilterObject.Simplify | msldap/protocol/ldap_filter/filter.py:13-20 | rewrites the objects in place and returns the one that stands for the simplified filter |
| FilterTree.SimplifyKeepsMatch | msldap/protocol/ldap_filter/filter.py:225-249 | simplifying changes the match of no entry, whatever the items match |
| FilterTree.SimplifiedExactly | msldap/protocol/ldap_filter/filter.py:13-20 | simplifying changes nothing if and only if no And or Or outside a Not has exactly one member |
| FilterTree.SimplifyLeavesNoSingles | msldap/protocol/ldap_filter/filter.py:13-20 | simplifying leaves no such group |
| FilterTree.SimplifyTwice | msldap/protocol/ldap_filter/filter.py:13-20 | it is idempotent |
| FilterTree.MatchMeans | msldap/protocol/ldap_filter/filter.py:225-249 | And matches if every member does, Or if one does, Not if none does |
| FilterParser.Parser.Parse | msldap/protocol/ldap_filter/parser.py:1506-1513 | parsing with the table gives what the grammar gives without one, and works rules out at most (number of rules) * (length + 1) times |
| FilterParser.Parser.Recall | msldap/protocol/ldap_filter/parser.py:152-158 | an entry is returned only if it is what the rule would give here; else the rule goes to work, once |
| FilterParser.Parser.Remember | msldap/protocol/ldap_filter/parser.py:164-166 | the table stays true to the grammar, with one entry for each rule worked out |
| FilterParser.Parser.ReadFilter | msldap/protocol/ldap_filter/parser.py:168-255 | parenthesised filters with white space around |
| FilterParser.Parser.ReadJunction | msldap/protocol/ldap_filter/parser.py:316-456 | And and Or, whose action takes the first elements it finds |
| FilterParser.Parser.ReadNot | msldap/protocol/ldap_filter/parser.py:458-527 | Not, whose action takes items only |
| FilterParser.Parser.ReadFilterList | msldap/protocol/ldap_filter/parser.py:529-547 | one filter or more, greedily |
| FilterParser.Parser.ReadWildcard | msldap/protocol/ldap_filter/parser.py:708-739 | attribute, equals sign and a value with stars |
| FilterParser.Parser.ReadSimple | msldap/protocol/ldap_filter/parser.py:565-596 | attribute, comparison and a value without stars |
| FilterParser.Parser.ReadAny | msldap/protocol/ldap_filter/parser.py:782-858 | a star, then values each ended by a star |
| FilterParser.Parser.ReadOptions | msldap/protocol/ldap_filter/parser.py:1160-1209 | options, with its second try of the single option |
| FilterParser.Parser.ReadLdapOid | msldap/protocol/ldap_filter/parser.py:1073-1158 | numbers with dots between |
| FilterParser.KeysOfRules | msldap/protocol/ldap_filter/parser.py:139-144 | a table holds at most one entry for each rule and position |
| PrintParse.RoundTripExactly | msldap/protocol/ldap_filter/filter.py:160-222 | for every filter that can be built, `Parser.parse` of its text (which `LDAPBase.parse` calls with white space stripped) gives it back if and only if groups are not empty, attributes, comparisons and values are of the kind the grammar reads, and every Not is over an item |
| FilterLanguage.ParsesExactly | msldap/protocol/ldap_filter/parser.py:152-1513 | the whole language: a text is parsed to a filter if and only if it is one of the texts of that filter, which are spelled character by character with their white space, options, bare items, values and stars, and what each stands for is stated beside them |
| FilterTexts.AttrExactly | msldap/protocol/ldap_filter/parser.py:900-1158 | the attributes that are read whole are a letter, colon or dot with letters, digits, colons, dots and hyphens behind, or numbers with dots between |
| PrintParse.ParsePrinted | msldap/protocol/ldap_filter/parser.py:152-596 | parsing takes the whole text and gives the filter, but for negated groups, at any depth |
| PrintParse.BlurExactly | msldap/protocol/ldap_filter/filter.py:485-488 | nothing is lost if and only if every Not is over an item |
| PrintParse.FilterProduced | msldap/protocol/ldap_filter/filter.py:405-488 | whatever is parsed from any text has items of that kind and Nots over items only |
| PrintParse.NegatedGroupIsLost | msldap/protocol/ldap_filter/filter.py:485-488 | a Not over any group is read as None |
| PrintParse.FillTakesOver | msldap/protocol/ldap_filter/filter.py:473-482 | in `Parser.parse`, white space directly behind `&` or `\|` takes the place of the members |
| Query.Rfc4515Encode | msldap/protocol/query.py:119-132 | the loop unescapes a value to octets, or raises for a negative pair |
| Query.EncodedIsOctets | msldap/protocol/query.py:119-132 | unescaping gives the octets of RFC 4515 if and only if no backslash in the value stands before two characters, not both hexadecimal digits, that `int` reads |
| Query.OddPairExample | msldap/protocol/query.py:119-132 | `\+5` is sent as the octet 5, where RFC 4515 has three characters |
| Query.EncodeEscaped | msldap/protocol/ldap_filter/filter.py:283-291 | unescaping an escaped text gives its UTF-8 encoding |
| Query.EscapeIsEach | msldap/protocol/ldap_filter/filter.py:283-291 | the five replacements in a row replace each character once |
| Characters.HexDigitExactly | msldap/protocol/query.py:119-132 | the sixteen hexadecimal digits in either case, and no other character |
| Characters.PairExactly | msldap/protocol/query.py:119-132 | the pairs that `int(text, 16)` reads: two digits, or one with a sign or blank in front or a blank behind |
| Characters.PairValue | msldap/protocol/query.py:119-132 | and their values |
| Characters.NegativePair | msldap/protocol/query.py:119-132 | a negative pair raises an exception |
| Characters.Rfc3629Examples | msldap/protocol/query.py:130 | the examples of RFC 3629 |
| Characters.NumeralExactly | msldap/external/bloodhoundpy/lib/cstruct.py:604-628 | what is read as a number: one digit or more, in either base |
| Characters.HexAppend | msldap/external/bloodhoundpy/lib/cstruct.py:604-628 | a hexadecimal numeral in either case, digit by digit |
| Characters.NumeralAppend | msldap/external/bloodhoundpy/lib/cstruct.py:604-628 | a decimal numeral, digit by digit |
| Characters.SpaceExactly | msldap/external/bloodhoundpy/lib/cstruct.py:604-605 | the white space around an operand that is stripped |
| Unicode.Utf8RoundTrip | msldap/protocol/query.py:130 | the octets determine the text |
| Translation.EqualityExactly | msldap/protocol/query.py:9-68 | the assertion made of `attr=value` is the one RFC 4515 reads if and only if stars stand only at the ends of the value and no backslash before an odd pair that `int` reads |
| Translation.ItemExactly | msldap/protocol/query.py:9-89 | for every item of RFC 4515, extensible matches with their optional type, `:dn` and rule included: the assertion made is the one it stands for if and only if, besides that, a name that ends in a colon has a type that is not empty and one rule that is not `dn` |
| Translation.AcceptedExactly | msldap/protocol/query.py:9-89 | an item is translated, and no exception raised, if and only if its comparison is one of the four, its name before an equals sign is not empty and, where it ends in a colon, of two parts, and no escape in its value gives a negative number |
| Translation.DnExample | msldap/protocol/query.py:9-18 | `(o:dn:=v)` of section 4 of RFC 4515 is sent as a match by a rule named dn |
| Translation.NoTypeExample | msldap/protocol/query.py:9-18 | `(:1.2.3:=v)`, likewise from there, is sent with an empty type |
| Translation.NoRuleExample | msldap/protocol/query.py:9-18 | `(cn:=v)`, likewise from there, raises an exception |
| Translation.NameEnds | msldap/protocol/query.py:9-11 | which names are taken for extensible matches, and what of them is split |
| Translation.DnExactly | msldap/protocol/query.py:9-11 | "dn" is meant in either case by RFC 4515 |
| Translation.TranslationPreservesMeaning | msldap/protocol/query.py:71-105 | a filter of RFC 4515 whose items are all of that kind is translated to a request that is, of every entry, as true (TRUE, FALSE or Undefined by RFC 4511 4.5.1.7) as the filter |
| Translation.TranslationExactly | msldap/protocol/query.py:71-105 | for every filter of RFC 4515 at any depth the produced request is the one that the standard makes if and only if every item is of that kind |
| Translation.RequestMeans | msldap/protocol/query.py:71-105 | the request that RFC 4515 makes of a filter is as true of every entry as the filter |
| Translation.EvaluateMeans | msldap/protocol/query.py:71-105 | RFC 4511 4.5.1.7: an And is TRUE if all members are and FALSE if one is, an Or the other way round, a Not turns TRUE and FALSE round, and the rest is Undefined |
| Translation.MatchIsMeaning | msldap/protocol/ldap_filter/filter.py:225-249 | where every item is TRUE or FALSE, `match` is the truth value of the filter |
| Translation.ConvertKeepsOrder | msldap/protocol/query.py:92-101 | children keep their number and order |
| Builders.BuilderExactly | msldap/protocol/ldap_filter/filter.py:252-281 | for every text, building, printing, stripping white space, parsing and translating asserts the kind of match asked for with the UTF-8 encoding of the text, if and only if the text is not empty and has no line feed; a text with spaces has no line feed, and where no star marks it, does not begin within the sign when its spaces are taken out |
| Builders.SignIsTaken | msldap/protocol/ldap_filter/filter.py:316-337 | `equal_to("= =")`, which does, asks for ` ==` |
| Stripping.ItemComesBack | msldap/protocol/ldap_filter/filter.py:316-337 | stripping takes all spaces out of a filter and puts those of its value back where they were; spaces that get into the name on the way come out again |
| Stripping.StrippedOfSpaceless | msldap/protocol/ldap_filter/filter.py:316-337 | a text without spaces only loses its line breaks |
| StrippedFilters.FilterComesBack | msldap/protocol/ldap_filter/filter.py:316-337 | a filter of any number of items at any depth comes back from stripping as it was, if every value with spaces is found, without them, at its own place only |
| StrippedFilters.TwoItems | msldap/protocol/ldap_filter/filter.py:316-337 | so it is for an And or Or of two items if the second value alone has spaces and its first letter stands nowhere else |
| StrippedFilters.SecondValueExample | msldap/protocol/ldap_filter/filter.py:316-337 | `(&(objectClass=user)(cn=John Smith))` keeps its space |
| StrippedNames.NamesComeOut | msldap/protocol/ldap_filter/filter.py:329-335 | names that got spaces when values were put back lose them again, in all items, if none of them can be taken for another one as a regular expression |
| StrippedNames.BothComeOut | msldap/protocol/ldap_filter/filter.py:316-337 | a value that is found in the names of two items goes into both and comes out of both: such a filter comes back from stripping |
| Characters.MatchExactly | msldap/protocol/ldap_filter/filter.py:329-335 | which names are taken for regular expressions without special characters, and what those match: letters in either case, and any character but a line feed for a dot |
| Builders.BuiltStripped | msldap/protocol/ldap_filter/filter.py:316-337 | stripping a built filter strips the text it was built from, and nothing else |
| Builders.NothingTranslated | msldap/protocol/ldap_filter/filter.py:252-281 | a builder without a text asks for presence or fails |
| Builders.NothingAsked | msldap/protocol/ldap_filter/parser.py:870-888 | no text that is parsed asserts an empty value |
| Builders.ExtensibleText | msldap/protocol/query.py:9-89 | from the text `(type:rule:=value)` to the assertion with that type, that rule and the octets of the value |
| Builders.ParsedAgain | msldap/protocol/ldap_filter/filter.py:316-337 | a filter that stripping leaves alone is parsed back from its text |
| Framing.Packetizer.ProcessBuffer | msldap/network/packetizer.py:13-33 | the loop emits the packets of the buffer and keeps what is left |
| Framing.Packetizer.DataIn | msldap/network/packetizer.py:39-41 | a chunk continues from what was left |
| Framing.ChunksDoNotMatter | msldap/network/packetizer.py:13-41 | any chunking, in either mode, gives the packets and the rest of the whole stream |
| Framing.PacketsAreTheInput | msldap/network/packetizer.py:13-33 | packets and rest are the input, and no complete packet is left |
| Framing.MessagesExactly | msldap/network/packetizer.py:13-41 | any chunking of BER messages, or in encrypted mode of payloads behind four octets that state their length, gives exactly these if and only if there are none or the last has six bytes |
| Framing.FirstMessages | msldap/network/packetizer.py:13-41 | while the stream comes in, in either mode, the packets are the first messages |
| Framing.MessageExactly | msldap/protocol/utils.py:3-15 | the length computed is that of the data for exactly the messages of section 8.1.3 of X.690 with up to four length octets behind the first, spelled octet by octet |
| Framing.LengthIs | msldap/protocol/utils.py:3-15 | of every such message the length computed is its length |
| Ber.MessageOf | msldap/protocol/utils.py:3-15 | any identifier and contents with octets that state their length are such a message |
| Framing.LongFormExample | msldap/protocol/utils.py:3-15 | eleven bytes with the length in four octets, the form that Active Directory sends, are one packet |
| Framing.OtherLengths | msldap/protocol/utils.py:3-15 | the indefinite form counts as two bytes; of a length in more octets than are there, those that are there are taken for all |
| Framing.SplitMessages | msldap/connection.py:101-115 | the loop over a packet yields its parts, or raises |
| Framing.PartsOfMessages | msldap/connection.py:106-115 | it takes any messages in a row apart |
| Framing.PartsAreThePacket | msldap/connection.py:106-115 | it loses nothing |
| Stream.StreamIsFiled | msldap/connection.py:69-127 | however the bytes are cut and whenever one looks, the reading task has filed exactly the messages that have come in whole, each once and in order; all of them at the end |
| Stream.PacketsCome | msldap/network/packetizer.py:13-41 | the packets in the first bytes of a stream of messages are exactly the messages that end within them |
| Stream.ExampleFits | msldap/connection.py:69-127 | two messages and a codec of the kind assumed |
| Connection.MSLDAPClientConnection.SendMessage | msldap/connection.py:148-175 | takes the next id and makes its event |
| Connection.MSLDAPClientConnection.File | msldap/connection.py:121-127 | extends the mailbox and sets the flag |
| Connection.MSLDAPClientConnection.ReceiveMessage | msldap/connection.py:177-191 | empties the mailbox and clears the flag, or returns None without an event |
| Connection.MSLDAPClientConnection.Fail | msldap/connection.py:134-139 | the loop puts the exception into every mailbox and sets every flag |
| Connection.SoundExactly | msldap/connection.py:121-191 | delivered ++ mailbox = arrived and flag = non-empty are kept by a step if and only if the event it makes is for an empty mailbox and the packet it files is for one request |
| Connection.SafeRun | msldap/connection.py:66-191 | after every run in which the server answers only what was sent they hold; and if the reading task has failed in it, a mailbox holds at most the exception, behind the first messages for it, and its flag is set exactly then |
| Connection.NeverReused | msldap/connection.py:154-155 | the ids taken in a run are consecutive |
| Connection.EarlyAnswerIsMissed | msldap/connection.py:172 | after an answer to an id not yet sent, the waiter is not woken although its answer is there |
| Connection.BreakWakesAll | msldap/connection.py:134-139 | in every run with a failure, every waiter registered then is woken and receives the exception exactly once, behind what it had received; and nobody else receives anything any more |
| Connection.NobodyWokenLater | msldap/connection.py:130-145 | after that, or a cancellation, nobody else is ever woken |
| PagedSearch.PagedSearchDelivers | msldap/connection.py:766-866 | from a new connection, for every chunking of the server's bytes and every interleaving with other requests, with a failure or a cancellation at any time: one request for each page with the cookie of the page before; exactly the results received so far yielded, in order; over after a page without a cookie, a failed one, or, with an exception behind those results, after the connection |
| PagedSearch.FinishedHasAll | msldap/connection.py:800-861 | a search that finished without an exception has yielded exactly the entries of all pages up to the first without a cookie, and all of them succeeded |
| PagedSearch.ResumesExactly | msldap/connection.py:177-191 | no wake-up is lost: a waiting search can go on exactly when a message for it has come in whole that it has not received, or the reading task has failed; and once its page is in, it does not wait for it again |
| PagedSearch.ExampleRun | msldap/connection.py:766-866 | a run whose bytes come in two chunks that cut a message, to the end |
| PagedSearch.ProcessResults | msldap/connection.py:742-761 | the loop over a batch of results |
| Directory.DirectoryIndex.Build | msldap/bloodhound.py:633-638 | after the loops a path is in the tree if and only if it begins the path of a listed name |
| Directory.DirectoryIndex.LookupChildren | msldap/bloodhound.py:401-419 | for a listed parent the not-found branch is unreachable, and the candidates are exactly the components below its path |
| Directory.CandidatesAreChildren | msldap/bloodhound.py:417-419 | in a table without escaped commas, a listed name is a candidate if and only if it is the parent with one component in front |
| Directory.CandidateExactly | msldap/bloodhound.py:401-419 | in any table, a listed name with one well-escaped component in front of a parent is a candidate for it if and only if neither that component has a comma nor the parent begins with a component whose comma is escaped, or the path of another listed name begins with the path of the parent and that component |
| Directory.OtherNameMisleads | msldap/bloodhound.py:401-419 | such another name: the two halves of the component the other way round |
| Directory.HalfIsNoParent | msldap/bloodhound.py:401-419 | a name with an escaped comma is a candidate for what stands behind that comma |
| Directory.ChildPath | msldap/external/bloodhoundpy/utils.py:4-30 | a name with one well-escaped component in front of a parent hangs right below it if and only if the component has no comma and the parent does not begin with a component whose comma is escaped; else the path of the parent with that component does not even begin its path |
| Directory.ChildPathIs | msldap/external/bloodhoundpy/utils.py:4-30 | where it hangs in every case: its pieces below the parent, or, behind an escaped comma of the parent, beside it |
| Directory.ExplodeDn | msldap/external/bloodhoundpy/utils.py:8-30 | the scanning loop with its escape flag |
| Directory.EscapedCommaIsMisplaced | msldap/external/bloodhoundpy/utils.py:4-6 | a component with an escaped comma comes back in two, the second half first |
| Characters.UpperExactly | msldap/bloodhound.py:401-419 | names are compared with every letter from a to z as its capital, and nothing else changed |
| TrustWalk.Walk | msldap/bloodhound.py:1090-1137 | the work list ends, tries each SID once, and has seen exactly the start and what is reachable through the domains whose connection succeeded |
| TrustWalk.Enqueue | msldap/bloodhound.py:1132-1137 | what a domain trusts is seen or waits, and nothing else is added |

## Left out

- Floats: the `/` of count expressions raises here; `Pointer`, `Wchar`, `Enum`, `Union` and `Void` types, the parser of C definitions, and the `sizes` dictionary of instances.
- Text: letters outside ASCII in `str.upper`, Unicode digits and white space in `int` and `str.strip`, and underscores in numerals.
- CompilerTheorem.CompilerPreservesMeaning: a read counts only when no byte is missing, because on short input the interpreter returns short values for characters and arbitrary-width integers where the generated code raises.
- CompilerLimits.HeldUnitExactly: layouts in which a run goes on behind the unit held, or several units are held, have the guard in one direction only, since there the bytes decide (`CompilerLimits.HeldUnitByChance`); what the generated class reads is stated for them too (`GeneratedReader.CompiledExactly`).
- CompilerTheorem.ReadsExactly: the count of an array of structures must not look up the array itself; for which other counts the two readers agree is not stated.
- StructureRoundTrip.ReadUndoesWrite: layouts in which a structure inside ends in a run that its own plan cuts have a sufficient condition only, since the bytes decide there.
- `_failure`, `_expected` and the texts of parse errors; the rules `AttributeOptions`, `ASCII_VALUE` and `HEX_CHAR`, which nothing calls.
- FilterParser.Parser.Parse: the table of tables is one map from rule and position.
- FilterTree.FilterObject.Simplify: no object is shared between two places of a filter.
- Indented printing, `soundex` and the regular expressions behind the matching of items, which is any predicate here.
- Builders.BuilderExactly: attribute names are those the grammar reads, not ending in a colon. Not stated for texts of spaces only without a star, for texts that begin within the sign once their spaces are out, or within a name with a colon, and for texts with both spaces and line feeds; one of them goes wrong in `Builders.SignIsTaken`.
- Stripping.Stripped: names found after the values are put back are taken for regular expressions; those that hold a space and one of the characters from `!` to `,` are not modelled.
- StrippedFilters.FilterComesBack: values with spaces that are found at a second place are in `Stripping.ItemComesBack` for one item and in `StrippedNames.NamesComeOut` for what happens to the names of several; where the texts of two values mix there is no general result.
- Query.Rfc4515Encode: `int.to_bytes()` is called without a length, which needs Python 3.11; older versions raise a TypeError at every escape.
- Framing.Packetizer.DataIn: the `None` that ends a stream, and a change of mode while a buffer is being cut.
- Encryption and signing, sockets, bind and authentication, and asyncio beyond atomic steps with one waiter for each id; the second half of `send_message` in encrypted mode is the step `Register`.
- PagedSearch.PagedSearchDelivers: plain mode on a bound connection; writing to the network does not fail; `rate_limit` and the texts of exceptions.
- Directory.CandidatesAreChildren: tables with escaped commas are in `Directory.CandidateExactly`; the order of the candidates, the filtering of containers and the lookups for names that are not listed.
- TrustWalk.Walk: merging archives, printing, and exceptions from a dump.
- Access masks, the mapping of rights, GUID and SID texts, well-known names, LDIF, DNS records, console and relay code, which would add only easy members.
