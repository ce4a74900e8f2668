# VHDL testbench generator: a verified model of `VHDLTestbenchGenerator`

This project models the class `VHDLTestbenchGenerator` in Dafny. The class reads the text of a VHDL
source file and writes a testbench skeleton for its entity. It appears twice in the repository, with
identical code:

- `vhdl-testbench-generator.py:6-149`, which is cited below;
- `vhdl-testbench-gui-complete_v1.py:7-150`.

The class keeps three fields:

- `entity_name`;
- `ports`: name, direction and type;
- `generics`: name, type and default.

`parse_vhdl_file` fills these fields with regular-expression searches. `generate_testbench` prints them
out as a component declaration, one signal per port, the instantiation of the unit under test with
its generic and port maps, a clock process when there is a clock port, and an empty stimulus process.

The model has five modules:

- `Text`: Python's string operations on ASCII text. These are `str.strip`, `str.join`, the
  lower-casing of one character, and the classes `\w` and `\s`. Each comes with its inverse or its
  defining property, for example `Split(Join(xs, sep), sep) == xs` when the separator is
  non-empty, there is at least one item, and no item contains the separator's first character. Lower-casing a whole name
  (`str.lower`) and `startswith` are `Emit.Lower` and `Emit.StartsWith`, next to the clock and reset
  tests that use them.
- `Patterns`: the five regular expressions. Each is a deterministic matcher that returns the match
  Python's backtracking engine returns. Each also has a token-by-token form predicate, stating when
  a region of the text matches the pattern. Lemmas show the two agree (soundness), and that wherever
  the pattern can match at all, the matcher picks the match the engine prefers:
  - the lazy clause body, which stops at the first `);`;
  - the longest name and type words;
  - the greedy `\s*([^;,]+)`, which may give back one space;
  - the first alternative of `(in|out|inout)`.

  `re.search` and `re.finditer` are modelled over the table of the matches at each position. They
  are shown to find the leftmost match and to miss none.
- `Extract`: the records one parse yields. These are `EntityNameOf`, `GenericsOf` and `PortsOf`, with
  lemmas about which declaration they come from and what shape every record has.
- `Emit`: the text `generate_testbench` returns, as the function `Testbench`. Lemmas prove how it is
  built:
  - each port and generic line reads back to the record it came from;
  - `;\n` and `,\n` separate the lines;
  - the generic sections appear exactly when there are generics;
  - the clock sections appear exactly when some port name, lowercased, starts with `clk` or `clock`;
  - the clock process drives the first such port;
  - the text opens with the header and the empty `<name>_tb` entity, instantiates `UUT: <name>`,
    and ends with the stimulus process.
- `Generator`: the class itself, with fields `entityName`, `generics` and `ports`:
  - `ParseVhdlFile` appends to the fields. `AddGenerics`/`AppendGenerics` and
    `AddPorts`/`AppendPorts` are the loops over the item matches.
  - `GenerateTestbench` builds the text step by step, as the source does. It is proved equal to
    `Testbench`.
  - The two ways the repository uses the class are the methods `GenerateForFile` and
    `GenerateForSelection`. The first takes a fresh generator per file, as the command-line script
    does. The second reuses one generator for a whole GUI session, where every selected file adds
    to what is already held.

Behaviours of the code that the model reproduces and proves:

- `parse_vhdl_file` resets nothing. A second file's generics and ports are appended to the first's.
  The entity name changes only when an entity declaration is found. This is stated by the contracts
  of `ParseVhdlFile` and `GenerateForSelection`.
- The port-item regex has no `re.IGNORECASE`, so a direction that starts with neither lower-case
  `in` nor lower-case `out` (`IN`, `Out`, `iN`) is not matched and the port is dropped, although
  VHDL keywords are case-insensitive (`MiscasedDirectionNotMatched`). A mixed-case `inOut` does
  start with `in`, so it is kept, as direction `in` with type `Out` (`MixedCaseInoutKept`).
- `(in|out|inout)` tries `in` first, and the rest of the pattern always matches after it. So
  `x : inout T` is recorded with direction `in` and a type that starts with `out`, although VHDL
  has the port mode `inout` (`InoutRecordedAsInOut`, `PortDirectionIsInOrOut`). When `T` is a
  plain type name such as `std_logic`, the type is exactly `out` and `T` is lost, so the
  testbench declares `signal x_tb : out;` (`InoutThenTypeIsOut`, `InoutPortRecordedAsInOut`).
- `has_reset` is computed by `generate_testbench` and never used. `GenerateTestbench` computes it too
  (`AnyReset`), and its contract shows the result does not depend on it.

## Model

| member | source | states |
|---|---|---|
| Generator.VhdlTestbenchGenerator.constructor | vhdl-testbench-generator.py:7-10 | a new generator has an empty entity name and no ports or generics, so every record it holds is valid |
| Generator.VhdlTestbenchGenerator.ParseVhdlFile | vhdl-testbench-generator.py:12-41 | the entity name is replaced only when an entity declaration is found (otherwise kept); the generics and ports of this text are appended after those already held; validity of the held records is preserved |
| Generator.VhdlTestbenchGenerator.AddGenerics | vhdl-testbench-generator.py:22-29 | one record per `finditer` match of the generic item pattern in the clause body is appended; the entity name and ports are unchanged |
| Generator.VhdlTestbenchGenerator.AppendGenerics | vhdl-testbench-generator.py:24-29 | the loop appends, in match order, the record of each match (name, type, stripped default) and nothing else |
| Generator.VhdlTestbenchGenerator.AddPorts | vhdl-testbench-generator.py:34-41 | one record per `finditer` match of the port item pattern in the clause body is appended; the entity name and generics are unchanged |
| Generator.VhdlTestbenchGenerator.AppendPorts | vhdl-testbench-generator.py:36-41 | the loop appends, in match order, the record of each match (name, direction, type) and nothing else |
| Generator.VhdlTestbenchGenerator.HeldRecordsReadBack | vhdl-testbench-generator.py:66-85 | for the records a generator holds (all valid, by the constructor and `ParseVhdlFile`), the component's generic lines and port lines read back to exactly the generics and ports held, and the signal lines to each port's name and type, in order |
| Generator.VhdlTestbenchGenerator.GenerateTestbench | vhdl-testbench-generator.py:43-149 | the text built by appending section after section equals `Testbench` of the held name, generics and ports and the timestamp |
| Generator.GenerateForFile | vhdl-testbench-generator.py:159-161 | with a fresh generator, the testbench holds exactly the generics and ports of that one file, and the entity name is empty when there is no entity declaration |
| Generator.GenerateForSelection | vhdl-testbench-gui-complete_v1.py:256-257 | with the session's generator, the file's generics and ports are added to those of earlier selections, and the testbench is built from the accumulated fields |
| Generator.GenericClauseText | vhdl-testbench-generator.py:62-70 | the loop over the generics yields exactly the generic clause section: nothing without generics |
| Generator.PortClauseText | vhdl-testbench-generator.py:72-80 | the loop over the ports yields exactly the port clause section, including the empty clause |
| Generator.SignalText | vhdl-testbench-generator.py:82-85 | the loop yields one `signal <name>_tb : <type>;` line per port, in order, after the `-- Signals` line |
| Generator.AnyClock | vhdl-testbench-generator.py:88 | the loop finds a clock port exactly when some port name, lowercased, starts with `clk` or `clock` |
| Generator.AnyReset | vhdl-testbench-generator.py:89 | the loop finds a reset port exactly when some port name, lowercased, starts with `rst` or `reset` |
| Generator.ClockSignal | vhdl-testbench-generator.py:122 | the name returned is a clock port's name, and it belongs to the first clock port in the list |
| Generator.GenericMapText | vhdl-testbench-generator.py:101-109 | the loop yields exactly the generic map section: nothing without generics |
| Generator.PortMapText | vhdl-testbench-generator.py:111-118 | the loop yields exactly the port map section, including the empty map |
| Extract.EntityNameOf | vhdl-testbench-generator.py:15-17 | defines the entity name a parse finds: group 1 of `re.search` of the entity pattern, none without a match; `EntityNameIsDeclared` and `EntityNameIsEarliest` state which declaration it comes from |
| Extract.GenericOf | vhdl-testbench-generator.py:25-29 | defines the record of one generic item match: groups 1 and 2 as they are, group 3 stripped; `GenericOfIsValid` states its shape |
| Extract.PortOf | vhdl-testbench-generator.py:37-41 | defines the record of one port item match: the three groups as they are; `PortOfIsValid` states its shape |
| Extract.GenericsOf | vhdl-testbench-generator.py:20-29 | defines the generics one parse appends: one per item match in the first generic clause body, none without a clause; `GenericsOfAreValid` and `NoGenericClauseNoGenerics` state what they are |
| Extract.PortsOf | vhdl-testbench-generator.py:32-41 | defines the ports one parse appends: one per item match in the first port clause body, none without a clause; `PortsOfAreValid` and `NoPortClauseNoPorts` state what they are |
| Extract.GenericsIn | vhdl-testbench-generator.py:24-29 | one generic record per match, in match order |
| Extract.PortsIn | vhdl-testbench-generator.py:36-41 | one port record per match, in match order |
| Extract.EntityNameIsDeclared | vhdl-testbench-generator.py:15-17 | a found entity name is the name word of the entity declaration that `re.search` reports, and it is a non-empty word |
| Extract.EntityNameIsEarliest | vhdl-testbench-generator.py:15-17 | wherever an entity declaration occurs, a name is found at it or at an earlier one; at that one, it is its name |
| Extract.ClauseListIsFirstBody | vhdl-testbench-generator.py:20-22 | a generic or port clause body is the lazy group of the clause `re.search` reports |
| Extract.ClauseListHasNoTerminator | vhdl-testbench-generator.py:20-22 | a clause body never contains `);` |
| Extract.ClauseListIsEarliest | vhdl-testbench-generator.py:32-34 | wherever a clause occurs, a body is found at it or at an earlier clause |
| Extract.NoGenericClauseNoGenerics | vhdl-testbench-generator.py:20-21 | without a generic clause, a parse adds no generics |
| Extract.NoPortClauseNoPorts | vhdl-testbench-generator.py:32-33 | without a port clause, a parse adds no ports |
| Extract.GenericOfIsValid | vhdl-testbench-generator.py:23-29 | a generic record has word name and type and a stripped default without `;` or `,` |
| Extract.InoutPortRecordedAsInOut | vhdl-testbench-generator.py:35-41 | the record of an `inout` entry with a plain type name has direction `in` and type `out`, whatever type was declared |
| Extract.PortOfIsValid | vhdl-testbench-generator.py:35-41 | a port record has a word name, direction `in` or `out`, and a type that starts with a word character and has no `;` or `,` |
| Extract.GenericsOfAreValid | vhdl-testbench-generator.py:20-29 | every generic a parse appends is valid |
| Extract.PortsOfAreValid | vhdl-testbench-generator.py:32-41 | every port a parse appends is valid |
| Patterns.EntityAt | vhdl-testbench-generator.py:15 | a match of `entity\s+(\w+)\s+is` at i starts at i and has one group inside it |
| Patterns.EntityAtHasForm | vhdl-testbench-generator.py:15 | each match the matcher returns has the form of the entity pattern |
| Patterns.EntityFormIsEntityAt | vhdl-testbench-generator.py:15 | every way the entity pattern can match is the matcher's match (it is unique) |
| Patterns.ClauseAt | vhdl-testbench-generator.py:20 | a clause match at i starts at i and has one group inside it |
| Patterns.ClauseAtHasForm | vhdl-testbench-generator.py:20 | a clause match has the clause form, and its body contains no `);` |
| Patterns.ClauseFormIsLazy | vhdl-testbench-generator.py:20 | wherever the clause pattern can match, the matcher succeeds with the same body start and ends no later (lazy `.*?`) |
| Patterns.NameColonAt | vhdl-testbench-generator.py:23 | a result is a name word followed by optional whitespace and a colon |
| Patterns.NameColonFormIsNameColonAt | vhdl-testbench-generator.py:23 | the name and the colon can be placed in only one way |
| Patterns.ValueAt | vhdl-testbench-generator.py:23 | the value group is non-empty and lies after the start |
| Patterns.ValueAtHasForm | vhdl-testbench-generator.py:23 | the value found has the form `\s*([^;,]+)` |
| Patterns.RunEndBoundsRuns | vhdl-testbench-generator.py:23 | no run of a class is longer than the greedy run |
| Patterns.ValueFormIsGreedy | vhdl-testbench-generator.py:23 | wherever the value can match, the matcher takes the latest start, then the latest end |
| Patterns.GenericItemAt | vhdl-testbench-generator.py:23 | a generic item match at i starts at i and has three groups inside it |
| Patterns.GenericItemAtParts | vhdl-testbench-generator.py:23 | a generic item match is made of the name, the type word, `:=` and the value, found step by step |
| Patterns.GenericItemAtFromSteps | vhdl-testbench-generator.py:23 | when each step succeeds, the generic item matches with those groups |
| Patterns.GenericItemAtHasForm | vhdl-testbench-generator.py:23 | each generic item match has the form of the pattern |
| Patterns.GenericItemFormIsGreedy | vhdl-testbench-generator.py:23 | wherever the generic item pattern can match, the matcher finds the same name and type and the engine's preferred value |
| Patterns.RangeEnd | vhdl-testbench-generator.py:35 | the optional range ends at or after its start, inside the text |
| Patterns.RangeEndHasForm | vhdl-testbench-generator.py:35 | the range found is either absent or matches `\s*\(\s*[\w\s\-]+\s+downto\s+[\w\s\-]+\s*\)` |
| Patterns.RangeFormIsRangeEnd | vhdl-testbench-generator.py:35 | wherever the range pattern matches, the matcher ends at its closing parenthesis |
| Patterns.TypeAfter | vhdl-testbench-generator.py:35 | after the alternative, the type group is non-empty and follows it |
| Patterns.TypeAfterHasForm | vhdl-testbench-generator.py:35 | the type found has the form of a type word and optional range |
| Patterns.TypeFormIsLongest | vhdl-testbench-generator.py:35 | wherever a type can follow, the matcher starts it at the same place and reaches at least as far |
| Patterns.DirectionAndType | vhdl-testbench-generator.py:35 | the direction taken is one of the alternatives and occurs in the text, with the type after it |
| Patterns.PortItemAt | vhdl-testbench-generator.py:35 | a port item match at i starts at i and has three groups inside it |
| Patterns.PortItemAtParts | vhdl-testbench-generator.py:35 | a port item match is made of the name, the direction and the type, found step by step |
| Patterns.PortItemAtFromSteps | vhdl-testbench-generator.py:35 | when each step succeeds, the port item matches with those groups |
| Patterns.PortItemAtHasForm | vhdl-testbench-generator.py:35 | each port item match has the form of the pattern |
| Patterns.DirectionAndTypeIsFirstAlternative | vhdl-testbench-generator.py:35 | the engine takes the first alternative after which the rest matches, with the longest type |
| Patterns.PortItemFormIsFirstAlternative | vhdl-testbench-generator.py:35 | wherever the port item pattern can match, the matcher finds the same name and an alternative no later than that one |
| Patterns.InoutTakesIn | vhdl-testbench-generator.py:35 | after `inout`, the alternative `in` succeeds, with the type starting at `out` |
| Patterns.DirectionIsInOrOut | vhdl-testbench-generator.py:35 | the alternative taken is `in` or `out`, never `inout` |
| Patterns.PortDirectionIsInOrOut | vhdl-testbench-generator.py:35-39 | a recorded direction is `in` or `out`; for `inout` it is `in` |
| Patterns.InoutRecordedAsInOut | vhdl-testbench-generator.py:35-41 | an `inout` entry is recorded as direction `in` with a type that starts with `out` |
| Patterns.InoutThenTypeIsOut | vhdl-testbench-generator.py:35 | when `inout` is followed by neither a word character nor a bracketed range (as in `inout std_logic`), the alternative taken is `in` and the type group is exactly `out` |
| Patterns.InoutStdLogicExample | vhdl-testbench-generator.py:35 | the entry `q : inout std_logic` matches with name `q`, direction `in` and type `out`, ending before `std_logic` |
| Patterns.MixedCaseInoutKept | vhdl-testbench-generator.py:35 | a mixed-case `inOut bit` is matched by the `in` alternative, with type `Out` |
| Patterns.TypeFormNoSeparator | vhdl-testbench-generator.py:35 | the type group contains no `;` or `,` |
| Patterns.PortItemGroups | vhdl-testbench-generator.py:35 | the port name is a word; the type starts with a word character and contains no `;` or `,` |
| Patterns.GenericItemGroups | vhdl-testbench-generator.py:23 | the generic name and type are words; the value contains no `;` or `,` |
| Patterns.MiscasedDirectionNotMatched | vhdl-testbench-generator.py:35 | an entry whose direction word, after the colon and whitespace, starts with neither lower-case `in` nor lower-case `out` (`IN`, `Out`, `iN`, ...) is not matched, as there is no `re.IGNORECASE` |
| Patterns.NoAlternativeAt | vhdl-testbench-generator.py:35 | where neither lower-case `in` nor `out` is written, no alternative of `(in|out|inout)` matches, since `inout` starts with `in` |
| Patterns.MatchAt | vhdl-testbench-generator.py:15-35 | a match of any of the five patterns starts where it was tried and has that pattern's number of groups |
| Patterns.Attempts | vhdl-testbench-generator.py:20-23 | the table has one entry per position, the pattern's match there |
| Patterns.AttemptsConsistent | vhdl-testbench-generator.py:20-23 | every match in the table starts at its position and ends within the text |
| Patterns.Search | vhdl-testbench-generator.py:15 | the position found has a match, and no earlier position does |
| Patterns.FindAll | vhdl-testbench-generator.py:23 | each match found is the table's match at its start, and each starts after the previous one ends |
| Patterns.FindAllMissesNothing | vhdl-testbench-generator.py:23 | every position with a match lies inside one of the matches found |
| Patterns.SearchText | vhdl-testbench-generator.py:15 | `re.search`'s result is the pattern's match at its start |
| Patterns.SearchTextIsLeftmost | vhdl-testbench-generator.py:15 | whenever the pattern matches somewhere, `re.search` finds a match no later than that |
| Patterns.Matches | vhdl-testbench-generator.py:23 | `finditer` yields well-formed matches that do not overlap |
| Patterns.MatchesAreMatchesAt | vhdl-testbench-generator.py:23 | each match `finditer` yields is the pattern's match at its own start |
| Patterns.MatchesMissNothing | vhdl-testbench-generator.py:35 | every position where the pattern matches lies inside one of the matches `finditer` yields |
| Emit.GenericLine | vhdl-testbench-generator.py:68 | defines one component generic line `name : type := default`, indented by 12 spaces; `GenericLineReadsBack` proves it is read back to the generic |
| Emit.PortLine | vhdl-testbench-generator.py:77 | defines one component port line `name : direction type`, indented by 12 spaces; `PortLineReadsBack` proves it is read back to the port |
| Emit.SignalLine | vhdl-testbench-generator.py:85 | defines one `    signal name_tb : type;` line; `SignalReadsBack` proves it is read back to the port's name and type |
| Emit.GenericAssoc | vhdl-testbench-generator.py:107 | defines one generic map entry `name => default`; `GenericAssocReadsBack` proves it is read back |
| Emit.PortAssoc | vhdl-testbench-generator.py:116 | defines one port map entry `name => name_tb`; `PortAssocReadsBack` proves it is read back |
| Emit.Header | vhdl-testbench-generator.py:45-60 | defines the text before the generic clause: the two comment lines, the libraries, the empty `<name>_tb` entity and the head of the component; `HeaderFrame` and `TestbenchOpens` state where each part lies |
| Emit.GenericSection | vhdl-testbench-generator.py:62-70 | defines the component's generic clause, with the lines joined by `;\n`, and nothing without generics; `GenericSectionsIffGenerics` and `GenericDeclsReadBack` state its properties |
| Emit.PortSection | vhdl-testbench-generator.py:72-80 | defines the component's port clause, with the lines joined by `;\n`, followed by `end component;`; `PortDeclsReadBack` and `NoPortsText` state its properties |
| Emit.SignalSection | vhdl-testbench-generator.py:82-85 | defines the `-- Signals` line followed by one signal line per port; `SignalsReadBack` states its property |
| Emit.ClockConstantSection | vhdl-testbench-generator.py:91-93 | defines the clock period constant, present only with a clock port; `ClockProcessDrivesFirstClockPort` and `NoClockPortNoClock` state when it appears |
| Emit.Instantiation | vhdl-testbench-generator.py:95-99 | defines `begin` and the head of the instantiation `UUT: <name>`; `InstantiationEndsWithUut` and `TestbenchInstantiates` state where the label lies |
| Emit.GenericMapSection | vhdl-testbench-generator.py:101-109 | defines the generic map, with the entries joined by `,\n`, and nothing without generics; `GenericSectionsIffGenerics` and `GenericMapReadsBack` state its properties |
| Emit.PortMapSection | vhdl-testbench-generator.py:111-118 | defines the port map, with the entries joined by `,\n`, kept even with no ports; `PortMapReadsBack` and `NoPortsText` state its properties |
| Emit.ClockProcessSection | vhdl-testbench-generator.py:120-132 | defines the clock process toggling the first clock port's `_tb` signal, present only with a clock port; `ClockProcessDrivesFirstClockPort` and `NoClockPortNoClock` state which port it drives and when it appears |
| Emit.Testbench | vhdl-testbench-generator.py:45-149 | defines the whole text `generate_testbench` returns, as the sections in the order the code appends them; `GenerateTestbench` is proved equal to it, and `TestbenchOpens`, `TestbenchInstantiates` and `TestbenchCloses` state how it begins, what it instantiates and how it ends |
| Emit.Lower | vhdl-testbench-generator.py:88-89 | defines `str.lower` on a name as `ToLower` of each ASCII character; `ClockNameIgnoresCase` states what it means for the clock test |
| Emit.IsClockName | vhdl-testbench-generator.py:88 | defines `name.lower().startswith(('clk', 'clock'))`; `ClockNameIgnoresCase` proves it is a case-insensitive prefix test |
| Emit.HasClock | vhdl-testbench-generator.py:88 | defines `has_clock`, that some port has a clock name; `AnyClock` computes it by a loop |
| Emit.HasReset | vhdl-testbench-generator.py:89 | defines `has_reset`, that some port has a reset name; `AnyReset` computes it by a loop, and `Testbench` does not depend on it |
| Emit.PortLineReadsBack | vhdl-testbench-generator.py:77 | a component port line reads back to the port it was written from |
| Emit.GenericLineReadsBack | vhdl-testbench-generator.py:68 | a component generic line reads back to the generic it was written from |
| Emit.GenericAssocReadsBack | vhdl-testbench-generator.py:107 | a generic map association reads back to the generic's name and default |
| Emit.PortAssocReadsBack | vhdl-testbench-generator.py:116 | a port map association maps the port to its `<name>_tb` signal and reads back to the name |
| Emit.SignalReadsBack | vhdl-testbench-generator.py:85 | a signal declaration reads back to the port's name and type |
| Emit.GenericLineNoSeparator | vhdl-testbench-generator.py:68 | a generic line and its association contain no `;` or `,`, so the joins below can be split |
| Emit.PortLineNoSeparator | vhdl-testbench-generator.py:77 | a port line, signal line and association contain no `;` or `,` |
| Emit.GenericDeclsReadBack | vhdl-testbench-generator.py:66-70 | for at least one valid generic (the only case in which the clause is emitted), the generic lines joined by `;\n` split back into exactly the generics, in order |
| Emit.PortDeclsReadBack | vhdl-testbench-generator.py:74-79 | for at least one valid port, the port lines joined by `;\n` split back into exactly the ports, in order; `NoPortsText` covers no ports |
| Emit.GenericMapReadsBack | vhdl-testbench-generator.py:104-109 | for at least one valid generic (the only case in which the map is emitted), the generic map joined by `,\n` splits back into each generic's name and default, in order |
| Emit.PortMapReadsBack | vhdl-testbench-generator.py:113-118 | for at least one valid port, the port map joined by `,\n` splits back into each port's name, in order; `NoPortsText` covers no ports |
| Emit.SignalsReadBack | vhdl-testbench-generator.py:84-85 | the signal lines split back into one name and type per port, in order, for any number of ports including none |
| Emit.FirstClock | vhdl-testbench-generator.py:122 | the index of a clock port with no clock port before it |
| Emit.ClockNameIgnoresCase | vhdl-testbench-generator.py:88 | a name counts as a clock name exactly when it starts with `clk` or `clock` in any letter case |
| Emit.ClockNameExamples | vhdl-testbench-generator.py:88 | `CLK` and `Clock_in` are clock names and `sclk` is not: upper and mixed case count, and the prefix must be at the start |
| Emit.TestbenchOpens | vhdl-testbench-generator.py:48-60 | the testbench starts with the two comment lines naming the entity and the timestamp, and declares the empty `<name>_tb` entity |
| Emit.TestbenchInstantiates | vhdl-testbench-generator.py:95-99 | the testbench instantiates `UUT: <name>` |
| Emit.TestbenchCloses | vhdl-testbench-generator.py:134-147 | the testbench ends with the stimulus process and `end behavior;` |
| Emit.InstantiationEndsWithUut | vhdl-testbench-generator.py:95-99 | the instantiation section ends with the `UUT: <name>` label |
| Emit.HeaderFrame | vhdl-testbench-generator.py:48-60 | the header starts with the comment lines and holds the `<name>_tb` entity right after the library clauses |
| Emit.GenericSectionsIffGenerics | vhdl-testbench-generator.py:62-70 | the generic clause and the generic map are empty exactly when there are no generics |
| Emit.NoPortsText | vhdl-testbench-generator.py:72-118 | with no ports, the port clause and the port map are still emitted, empty, and there are no signal lines |
| Emit.ClockProcessDrivesFirstClockPort | vhdl-testbench-generator.py:91-132 | when a clock port exists, the clock constant is emitted and the clock process drives the first clock port's `_tb` signal |
| Emit.NoClockPortNoClock | vhdl-testbench-generator.py:88-132 | without a clock port, neither the clock constant nor the clock process appears |
| Text.ToLower | vhdl-testbench-generator.py:88 | `str.lower` on one ASCII character: no upper-case letter is left, a character is a letter afterwards exactly when it was one before, and word characters and whitespace keep their class |
| Text.RunEnd | vhdl-testbench-generator.py:15 | a greedy run of a character class: every character in it belongs to the class, and the next one does not |
| Text.RunEndIsMaximalRun | vhdl-testbench-generator.py:15 | any run of the class that cannot be extended is the greedy run |
| Text.Find | vhdl-testbench-generator.py:20 | the first occurrence of a literal from a position; none before it |
| Text.FindFirst | vhdl-testbench-generator.py:20 | an occurrence with none before it is what Find returns |
| Text.TrimmedEnd | vhdl-testbench-generator.py:28 | the end of a slice without its trailing whitespace |
| Text.Strip | vhdl-testbench-generator.py:28 | `str.strip`: the result has no whitespace at either end and is the input with only whitespace removed around it |
| Text.StripStripped | vhdl-testbench-generator.py:28 | stripping a text without whitespace at its ends changes nothing |
| Text.StripKeepsClass | vhdl-testbench-generator.py:28 | stripping keeps every remaining character's class |
| Text.Join | vhdl-testbench-generator.py:70 | defines `sep.join(items)`: the items with the separator between each two, the empty text for no items; `SplitJoin` proves it is undone by `Split` |
| Text.SplitJoin | vhdl-testbench-generator.py:70 | for a non-empty separator and at least one item, `sep.join(items)` splits back into the items when no item contains the separator's first character |
| Text.ConcatOfTerminated | vhdl-testbench-generator.py:84-85 | lines each ending in a separator are the join of the lines with an empty last item |
| Text.Terminate | vhdl-testbench-generator.py:85 | each line gets the separator appended, in order |

## Left out

- The Tk GUI (windows, buttons, status bar and message boxes) and the command-line `main`. Only the
  way each uses the generator is modelled, as `GenerateForSelection` and `GenerateForFile`.
- File reading and writing, `os.path` name handling, and the success and error messages of
  `process_file`. This is I/O. The model takes the file's text as a parameter and returns the
  testbench text.
- `datetime.now().strftime(...)`, a clock. The formatted timestamp is a parameter of
  `GenerateTestbench` and `Testbench`.
- Unicode: Python 3 `str` patterns let `\w` and `\s` match non-ASCII letters and spaces, and let
  `str.lower` fold non-ASCII letters. The model covers ASCII `\w` (`[A-Za-z0-9_]`), ASCII whitespace
  and ASCII case folding.
- Text.Strip: removes ASCII whitespace only, whereas Python also strips Unicode whitespace.
- A general regular-expression engine. Only the five fixed patterns are modelled, each by its own
  matcher.
- Exceptions raised by `process_file` and the GUI (missing file, permission errors). They come from
  the file I/O left out above.
