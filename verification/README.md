# vss-tools: symbol registry and binary exporter, in Dafny

This project models two parts of vss-tools, the Vehicle Signal Specification toolchain:

- **The symbol registry** (`vspec/model/constants.py`). It covers:
  - `VSSConstant` records;
  - the reserved-name tests `_is_dunder` and `_is_sunder`;
  - the `VSSEnumMeta` metaclass, which builds each enumeration's reverse lookup from token to constant and its ordered `values` tuple, and serves `from_str`;
  - the configurable variant, which reads members from a configuration section (`dict_to_constant_config`, `iterate_config_members`, `add_config`);
  - the fixed `VSSType`, `VSSDataType` and `StringStyle` tables.
- **The binary exporter** (`vssexporters/vss2binary.py`). It covers:
  - the hexadecimal length-prefix framing of allowed-value lists (`intToHexChar`, `hexAllowedLen`, `allowedString`);
  - the twelve-field record built for each node (`export_node`);
  - the depth-first walk that hands those records to the native writer.

Modules, one concept per file:

| file | module | what it holds |
|---|---|---|
| `wrappers.dfy` | `Wrappers` | `Option` and `Result` |
| `py_dict.dfy` | `PyDict` | an insertion-ordered dictionary with Python `dict` semantics: class namespaces, reverse lookups and configuration sections are all such dictionaries |
| `constants.dfy` | `Constants` | `VSSConstant`, the reserved-name tests, enumeration creation, `from_str`, the fixed tables |
| `config_constants.dfy` | `ConfigurableConstants` | key derivation from labels, `dict_to_constant_config`, `iterate_config_members`, the configurable metaclass, `add_config`, `Unit` |
| `vss_tree.dfy` | `VssTree` | the node fields the exporter reads, subtree size, pre-order listing |
| `allowed_framing.dfy` | `AllowedFraming` | the length-prefix framing as written, the corrected framing, and a reader for framed text |
| `vss2binary.dfy` | `Vss2Binary` | the per-node record, the walk, its flat reference, and rebuilding the tree from the records |

How the Python code maps onto the model:

- **Reflection.**
  - A class body is an ordered dictionary from attribute name to attribute. An attribute is a constant or a piece of text.
  - An enumeration is what the metaclass leaves behind: the constant attributes, the reverse lookup and the cached `values` tuple.
- **Failures.**
  - An exception becomes an `Err` or a `failure` value.
  - Where the source has already done part of its work before raising, that part is kept in the model:
    - `add_config` has already updated the lookup when an entry without a label stops it;
    - the exporter has already handed records to the writer when a node fails.
- **The writer.** The native writer is modelled as the sequence of records it receives.
- **Partial output.** A failed export leaves the records written before the failing node in the writer's output.
- **Allowed-value framing.** The record builder uses the corrected framing: an allowed value of 256 or more characters stops the export with `AllowedTooLong`. The code as written frames such a value behind a prefix that is not hexadecimal and carries on; the as-written helpers are modelled separately (see Findings and Left out).

## Model

| member | source | states |
|---|---|---|
| Constants.IsDunder | vspec/model/constants.py:23-28 | a name that passes the dunder test never passes the sunder test as well |
| Constants.IsSunder | vspec/model/constants.py:31-36 | a name that passes the sunder test is longer than two characters and never opens with a double underscore |
| Constants.DunderIsNeverSunder | vspec/model/constants.py:24-37 | no attribute name is both a dunder and a sunder name |
| Constants.DunderOfCore | vspec/model/constants.py:24-29 | `__core__` is a dunder name exactly when the core is non-empty and neither starts nor ends with an underscore |
| Constants.DunderHasCore | vspec/model/constants.py:24-29 | every dunder name is two underscores, a core, two underscores |
| Constants.SunderOfCore | vspec/model/constants.py:32-37 | `_core_` is a sunder name exactly when the core is non-empty and neither starts nor ends with an underscore |
| Constants.SunderHasCore | vspec/model/constants.py:32-37 | every sunder name is an underscore, a core, an underscore |
| Constants.NoUnderscoreIsMemberName | vspec/model/constants.py:58-61 | a name without underscores is always an enumeration member |
| Constants.Members | vspec/model/constants.py:58-61 | reading the members succeeds exactly when every non-reserved attribute is a constant, and then every such constant is among those read; otherwise it reports a non-reserved attribute that is text |
| Constants.MembersDeclared | vspec/model/constants.py:58-61 | every member read is a constant bound to a non-reserved attribute of the class |
| Constants.ByValueKeyed | vspec/model/constants.py:58-61 | registering constants by token keeps every entry filed under its own token; tokens outside the new constants keep their entry; a new token maps to one of the new constants |
| Constants.ByValueRegisters | vspec/model/constants.py:58-61 | with distinct tokens, each constant is what its own token looks up |
| Constants.LastForIsMember | vspec/model/constants.py:58-61 | when one token is registered twice, the lookup holds a constant with that token from the registered ones (the later one) |
| Constants.BuildEnum | vspec/model/constants.py:55-65 | class creation succeeds exactly when every member is a constant; then the lookup is keyed by token and the `values` tuple lists the lookup's keys in order |
| Constants.BuildEnumMembers | vspec/model/constants.py:58-63 | `values` is the members' tokens in declaration order with repeats removed; every looked-up constant is a declared member |
| Constants.MemberRegistered | vspec/model/constants.py:58-63 | every constant bound to a non-reserved attribute has its token in `values` |
| Constants.RegisteredIsBound | vspec/model/constants.py:58-63 | every token in `values` belongs to a constant bound to some member attribute |
| Constants.FromStr | vspec/model/constants.py:67-68 | `from_str` returns a constant with the requested token, and fails with an unknown-token error exactly when the token is not in `values` |
| Constants.ReservedThenConstants | vspec/model/constants.py:55-63 | a body of reserved entries then distinctly named constants builds an enumeration whose `values` are the constants' tokens in order, without repeats |
| Constants.ConstantClass | vspec/model/constants.py:55-63 | a class of distinctly named constants builds, with `values` in declaration order and every looked-up constant one of the declared ones |
| Constants.ClassOfConstants | vspec/model/constants.py:55-65 | any class whose attributes are constants under member names builds, and looks up only declared constants |
| Constants.ShadowedMember | vspec/model/constants.py:58-63 | when a later member rebinds an attribute name, the earlier constant's token is not registered |
| Constants.StringStyleClass | vspec/model/constants.py:98-112 | creating `StringStyle` succeeds, its `values` are the fourteen style tokens in declaration order, and every constant it registers is one of the declared styles |
| Constants.VSSTypeClass | vspec/model/constants.py:115-121 | creating `VSSType` succeeds, and every constant it registers is one of the declared node kinds |
| Constants.VSSTypeTable | vspec/model/constants.py:115-121 | `VSSType` has exactly six tokens, branch to element in order, each constant labelled by its own token |
| Constants.VSSTypeTokens | vspec/model/constants.py:115-121 | the six node-type tokens are distinct and each equals its label |
| Constants.VSSDataTypeClass | vspec/model/constants.py:124-150 | creating `VSSDataType` succeeds, its `values` are the 26 data-type tokens in declaration order, and every constant it registers is one of the declared data types |
| Constants.VSSDataTypeTable | vspec/model/constants.py:124-150 | `VSSDataType` builds, and every data type is labelled by its own token |
| PyDict.PutAllKeys | vspec/model/constants.py:58-63 | assigning pairs in order leaves the keys in first-insertion order, each once |
| PyDict.PutAllEntries | vspec/model/constants.py:58-61 | after assigning pairs in order, each key holds the value of its last assignment |
| PyDict.DedupAppend | vspec/model/constants.py:85-89 | the keys after further assignments are the old keys followed by the new keys not seen before |
| ConfigurableConstants.DeriveKey | vspec/model/constants.py:156 | a derived key is made only of upper-case ASCII letters and digits and is never longer than the label |
| ConfigurableConstants.DeriveKeyAppend | vspec/model/constants.py:156 | the key of a concatenation is the concatenation of the keys |
| ConfigurableConstants.DeriveKeyFixed | vspec/model/constants.py:156 | a text is its own key exactly when it is made only of upper-case letters and digits |
| ConfigurableConstants.DeriveKeyIdempotent | vspec/model/constants.py:156 | deriving a key from a key changes nothing |
| ConfigurableConstants.DerivedKeyIsMemberName | vspec/model/constants.py:153-159 | a derived key is never a reserved name, so every configured entry becomes an enumeration member |
| ConfigurableConstants.DeriveKeyWord | vspec/model/constants.py:156 | a word of letters and digits keeps its length and is upper-cased character by character |
| ConfigurableConstants.DeriveKeyUnixTimestamp | vspec/model/constants.py:156 | "UNIX Timestamp" becomes "UNIXTIMESTAMP" |
| ConfigurableConstants.DeriveKeyKmPerHour | vspec/model/constants.py:156 | "km/h" becomes "KMH" |
| ConfigurableConstants.DictToConstantConfig | vspec/model/constants.py:153-159 | an entry without a label fails; otherwise the pair is the label's key and a constant that keeps the label, has the entry's name as token, and has no description or domain when the entry has none |
| ConfigurableConstants.YieldEntries | vspec/model/constants.py:162-166 | entries are converted in section order; a conversion failure stops at the first unlabelled entry and reports it |
| ConfigurableConstants.IterateConfigMembers | vspec/model/constants.py:162-166 | a missing section yields nothing; otherwise pairs in section order until the first unlabelled entry |
| ConfigurableConstants.YieldEntriesComplete | vspec/model/constants.py:162-166 | reading a section completes exactly when every entry has a label |
| ConfigurableConstants.YieldedTokens | vspec/model/constants.py:162-166 | the tokens read are the section's entry names, in order |
| ConfigurableConstants.NewConfigurable | vspec/model/constants.py:77-83 | a class without `__config_name__` fails; an unlabelled entry fails with that entry's error; a created class is well-formed and keeps its configuration name |
| ConfigurableConstants.ConfigurableBuild | vspec/model/constants.py:77-83 | the configurable class is the plain class built from its header followed by the configured pairs |
| ConfigurableConstants.ConfigurableClass | vspec/model/constants.py:77-83 | with all entries labelled and distinct derived keys, the class builds and its `values` are the section's names in file order |
| ConfigurableConstants.ConfigurableWithoutSection | vspec/model/constants.py:77-83 | with no section for the class, the class builds with no values |
| ConfigurableConstants.ConfigurableCollision | vspec/model/constants.py:77-83 | when two labels derive the same key, the earlier entry's token is not registered |
| ConfigurableConstants.ConfigurableOutcome | vspec/model/constants.py:77-83 | an unlabelled entry stops creation with its error; a created class keeps its section name; a fully labelled section with distinct derived keys gives the section's tokens in file order; no section gives no tokens |
| ConfigurableConstants.UnitClass | vspec/model/constants.py:169-170 | `Unit` fails on the first unlabelled entry of `units`; with every entry labelled and distinct derived keys its `values` are the section's tokens in file order; without a `units` section it has none |
| ConfigurableConstants.UnitWithoutSection | vspec/model/constants.py:169-170 | `Unit` without a `units` section has no values |
| ConfigurableConstants.PutAttrs | vspec/model/constants.py:86-87 | `setattr` for each pair: new keys added, a repeated key holds its last value, other attributes unchanged |
| ConfigurableConstants.AddConfig | vspec/model/constants.py:85-89 | without a configuration name it fails and changes nothing; it keeps the lookup well-formed; on success `values` lists the lookup's keys; after a failure `values` is the old tuple |
| ConfigurableConstants.AddConfigRegisters | vspec/model/constants.py:85-92 | every entry read, even by a run that later fails, is what `from_str` returns for its token |
| ConfigurableConstants.AddConfigOrder | vspec/model/constants.py:85-89 | after a complete run, `values` is the old tokens in order followed by the section's new tokens in file order, without repeats |
| ConfigurableConstants.AddConfigKeepsOthers | vspec/model/constants.py:85-89 | tokens outside the section look up what they looked up before |
| ConfigurableConstants.AddConfigNoSection | vspec/model/constants.py:85-89 | without a section for the class nothing changes |
| ConfigurableConstants.AddConfigAborted | vspec/model/constants.py:85-89 | a failing run reports the first unlabelled entry and leaves `values` as it was |
| VssTree.PreOrder | vssexporters/vss2binary.py:121-124 | the listing has one entry per node of the subtree and starts with the subtree's root |
| AllowedFraming.IntToHexChar | vssexporters/vss2binary.py:36-40 | a value below sixteen becomes the hexadecimal digit that reads back as it; a larger value never becomes a digit |
| AllowedFraming.IntToHexCharDigits | vssexporters/vss2binary.py:36-40 | 0 and 9 become '0' and '9'; 10 and 15 become 'A' and 'F' |
| AllowedFraming.IntToHexCharInjective | vssexporters/vss2binary.py:36-40 | distinct values below sixteen give distinct digits |
| AllowedFraming.HexAllowedLen | vssexporters/vss2binary.py:30-34 | the prefix has two characters; below 256 they read back as the length divided by sixteen and the remainder; from 256 on the first is not a digit |
| AllowedFraming.LengthPrefix | vssexporters/vss2binary.py:30-34 | the corrected prefix: two digits whose value, high digit times sixteen plus low digit, is the length |
| AllowedFraming.HexAllowedLenAgrees | vssexporters/vss2binary.py:30-34 | below 256 the prefix as written is the corrected prefix |
| AllowedFraming.AllowedStringAsWritten | vssexporters/vss2binary.py:23-28 | the framed text is two characters longer than the element for every element, and is always produced when every element is below 256 |
| AllowedFraming.AllowedString | vssexporters/vss2binary.py:23-28 | framing succeeds exactly when every element is shorter than 256 characters, with the summed length; otherwise it reports an over-long element of the list |
| AllowedFraming.AllowedStringAgrees | vssexporters/vss2binary.py:23-28 | where every element fits, the corrected framing is the framing as written |
| AllowedFraming.AllowedRoundTrip | vssexporters/vss2binary.py:23-34 | reading back a framed list gives the list |
| AllowedFraming.DecodeAllowedFrames | vssexporters/vss2binary.py:23-34 | every readable framed text is the framing of what it reads back to |
| AllowedFraming.AllowedStringExamples | vssexporters/vss2binary.py:23-28 | the empty list gives "", ["x"] gives "01x", ["ab", "c"] gives "02ab01c" |
| AllowedFraming.LongElementUndecodable | vssexporters/vss2binary.py:30-34 | as written, a 256-character element is framed behind "G0", which cannot be read back |
| AllowedFraming.LongElementNeverRoundTrips | vssexporters/vss2binary.py:23-40 | as written, no list with an element of 256 or more characters reads back as itself |
| Vss2Binary.RecordFor | vssexporters/vss2binary.py:46-121 | a record fails exactly for a sensor, actuator or attribute without a data type, or an over-long allowed value; the data-type check comes first; the record keeps name, type token, description and child count, and its allowed field reads back as the node's list |
| Vss2Binary.DataTypeField | vssexporters/vss2binary.py:71-73 | the data-type field is the node's data-type token for sensors, actuators and attributes, and empty for every other type |
| Vss2Binary.DataTypePresent | vssexporters/vss2binary.py:71-73 | with non-empty data-type tokens, the field is non-empty exactly for the three typed node kinds |
| Vss2Binary.OptionalFields | vssexporters/vss2binary.py:75-117 | bounds and default are the node's texts (empty when unset); the unit is the unit's token, or empty without a unit; the identifier is empty unless identifiers are generated; the validation field is always empty |
| Vss2Binary.IgnoredFields | vssexporters/vss2binary.py:92-111 | deprecation, comment and aggregate never affect the record |
| Vss2Binary.UuidOnly | vssexporters/vss2binary.py:113-115 | turning identifier generation off changes only the identifier field, which becomes empty |
| Vss2Binary.EmitPrefix | vssexporters/vss2binary.py:121-124 | writing a flat list gives the records of a prefix of it: all of it when every record builds, else up to the first failing node, whose error is reported |
| Vss2Binary.ExportNode | vssexporters/vss2binary.py:46-124 | at most one record per node of the subtree, one per node when the walk completes; something is written exactly when the node's own record can be built, and that record comes first |
| Vss2Binary.ExportChildren | vssexporters/vss2binary.py:123-124 | the children's subtrees together give at most one record per node, one per node when none of them fails |
| Vss2Binary.ExportIsPreOrder | vssexporters/vss2binary.py:121-124 | the walk writes exactly what writing the tree's pre-order listing writes |
| Vss2Binary.ExportRecords | vssexporters/vss2binary.py:121-124 | a complete export writes one record per node, in pre-order, the root's first, each counting its node's children; an incomplete one stops at the first failing node |
| Vss2Binary.ExportCompletes | vssexporters/vss2binary.py:121-124 | the export completes exactly when every node of the tree has a record |
| Vss2Binary.RebuildTree | vssexporters/vss2binary.py:121-124 | reading one tree off the records of a complete export, whatever follows them, rebuilds the tree of records and leaves what follows |
| Vss2Binary.RebuildExport | vssexporters/vss2binary.py:121-124 | the records of a complete export are exactly one tree, the exported one |
| Vss2Binary.VehicleSpeedExample | vssexporters/vss2binary.py:46-124 | a branch "Vehicle" with one sensor "Speed" (float, km/h) gives two records, Vehicle counting one child, then Speed with data type "float", unit "km/h" and no children |

## Left out

- The native writer (`createBinaryCnode`, `export`, lines 19-21 and 127-139 of `vssexporters/vss2binary.py`) is not modelled. Loading the shared library through `ctypes` is replaced by the sequence of records handed to it.
- The output file name passed with every record is not modelled: it is the same for the whole export.
- UTF-8 encoding of the fields is not modelled. Dafny strings hold Unicode scalar values, so encoding cannot fail here. Neither the bytes nor the C side's reading of a field up to its first NUL character are modelled.
- The child count is an unbounded natural number. The writer receives it as a C `int`, and counts beyond 2^31-1 are not modelled.
- `add_arguments`, the `print` calls and the module globals `out_file` and `_cbinary` are not modelled: they are command-line and console handling.
- Reading the YAML configuration file in the configurable metaclass is not modelled. The configuration is a parameter, already parsed into ordered sections.
- The definitions of `CONFIG_PATH` and `NON_ALPHANUMERIC_WORD` (`vspec/model/__init__.py`) are not part of this model.
- ConfigurableConstants.DeriveKey: removes every character that is not an ASCII letter or digit, which assumes that reading of `NON_ALPHANUMERIC_WORD`. `str.upper` is modelled on ASCII only.
- Metaclass reflection is not modelled: `type.__new__`, and the `hasattr` guards that skip rebuilding for a class inheriting an existing lookup. Every class is built from its own body.
- `VSSNode` and its construction (`vspec/model/vsstree.py`) are not part of this model. A node is the record of the fields the exporter reads. Bounds and default are text, so `str()` of a number is not modelled.
- An aggregate that is not text would make `.encode` raise in the source. The model treats aggregate as optional text, and such an aggregate is not modelled.
- Vss2Binary.RecordFor: uses the corrected framing, so a node with an allowed value of 256 or more characters fails with `AllowedTooLong`. The source instead writes a corrupt prefix; see Findings.

## Findings

| source | as written | input that shows it | evidently intended | confidence | as-written member | corrected member |
|---|---|---|---|---|---|---|
| vssexporters/vss2binary.py:30-34 | the high digit is `len // 16` with no bound, so from 256 characters the first prefix character runs past 'F' | an allowed value of 256 characters is framed behind "G0", which no reader of two-hexadecimal-digit prefixes can read | refuse elements of 256 or more characters so that every prefix is two hexadecimal digits and the list reads back | not executed | AllowedFraming.LongElementUndecodable | AllowedFraming.AllowedString |
