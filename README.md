# Turing machine simulator: a verified Dafny model

The simulator runs a single-tape deterministic Turing machine given as a binary genome. The
genome is a string of `0` and `1`. Rules are separated by `11`, and the five fields of a rule by
`1`. Each field is a run of zeros:

- the current state `q<n>`, written as n+1 zeros;
- the symbol read, 1 to 8 zeros for `0 1 _ I C D W X`;
- the next state;
- the symbol written;
- the move, `0` for left and `00` for right.

The input is either a binary string, written on the tape as it is, or a non-negative decimal
d, written as d `0` cells. The machine steps until no rule applies, the operator aborts, or
10000 steps have been taken. The result is the tape from the leftmost to the rightmost
non-blank cell.

The model has one Dafny module per concern:

| module | file | contents |
|---|---|---|
| `Wrappers` | wrappers.dfy | `Option`, `Result`, `Outcome` |
| `Errors` | errors.dfy | the exceptions the simulator throws, as data |
| `JavaText` | java_text.dfy | `String.split` with a literal separator, the regular expressions `0+` and `[01]*`, `Integer.parseInt`, decimal rendering |
| `Symbols` | symbol.dfy | the `Symbol` enum |
| `Directions` | direction.dfy | the `Direction` enum |
| `Transitions` | transition.dfy | `TransitionKey` and `TransitionValue` |
| `Genome` | genome.dfy | `decodeState` and the genome decoder as functions, an encoder, and the round trip |
| `Engine` | engine.dfy | the machine as functions on values: step, run, input loading, result window |
| `Machine` | machine.dfy | class `Turingmachine`, whose fields change in place |

The class's methods are proved to follow the `Engine` and `Genome` functions, and the
properties are proved about those functions.

Both copies of the class, `Turingmachine.java` and `src/Turingmachine.java`, have the same
logic; only `main` differs. The table cites `src/Turingmachine.java`. The same code is a few
lines earlier in `Turingmachine.java`: for example, `decodeState` is at lines 45-48,
`parseTMCoding` at 61-101, `loadInput` at 105-147, `step` at 150-185 and the result scan at
269-290.

## Model

| member | source | states |
|---|---|---|
| JavaText.Split | src/Turingmachine.java:77-79 | `split` with a literal separator gives `[""]` exactly for the empty string, and a result of two or more pieces never ends with an empty piece |
| JavaText.JoinSplitRaw | src/Turingmachine.java:77 | joining the pieces found left to right with the separator gives the string back |
| JavaText.SplitRawPiecesFree | src/Turingmachine.java:77 | no piece contains the separator |
| JavaText.SplitOfJoin | src/Turingmachine.java:77-79 | splitting the join of pieces that cut cleanly gives back exactly those pieces, provided the last piece is non-empty and free of the separator. A piece cuts cleanly when no occurrence of the separator starts inside it, including one that runs into the following separator: `["01","0"]` joined by "11" is "01110", which splits as `["0","10"]` |
| JavaText.NatToString | src/Turingmachine.java:45 | the decimal rendering of a state number is non-empty and all digits, and starts with '0' only for 0 itself, so there is no leading zero |
| JavaText.DigitsValueOfNatToString | src/Turingmachine.java:45 | reading the rendering back gives the number |
| JavaText.NatToStringInjective | src/Turingmachine.java:45 | different numbers render differently, so different codes name different states |
| JavaText.ParseInt | src/Turingmachine.java:124 | `Integer.parseInt` accepts only an optional sign followed by at least one digit, with a value in the int range, and reads every in-range digit string as its value |
| JavaText.ParseIntOfNatToString | src/Turingmachine.java:124 | the decimal rendering of any n up to 2^31-1 parses back to n |
| JavaText.ParseIntOfNegative | src/Turingmachine.java:124-127 | "-" followed by the digits of n, for n up to 2^31, parses to -n, which the loader then refuses |
| Symbols.ValuesComplete | src/Symbol.java:3-10 | `values()` lists every symbol |
| Symbols.CodeIsRunOfZeros | src/Symbol.java:3-10 | the k-th symbol's code is k+1 zeros |
| Symbols.CodesAndCharsDistinct | src/Symbol.java:3-10 | no two symbols share a code or a display character |
| Symbols.FromCode | src/Symbol.java:34-41 | `fromCode` succeeds exactly when the string equals some symbol's whole code, returns that symbol, and otherwise fails with the unsupported code |
| Symbols.FromCodeOfCode | src/Symbol.java:34-38 | decoding a symbol's code gives the symbol |
| Symbols.FromChar | src/Symbol.java:49-57 | `fromChar` succeeds exactly for the eight display characters, returns the symbol shown by the character, and otherwise fails with the unsupported character |
| Symbols.FromCharOfDisplayChar | src/Symbol.java:49-55 | reading a symbol's character gives the symbol, '_' giving BLANK |
| Symbols.ToString | src/Symbol.java:63-66 | `toString` is one character that reads back as the symbol |
| Directions.FromCode | src/Direction.java:28-35 | "0" is LEFT, "00" is RIGHT, and every other code fails with the unsupported move code |
| Directions.FromCodeOfCode | src/Direction.java:28-33 | decoding a direction's code gives the direction |
| Directions.ToString | src/Direction.java:41-44 | `toString` is "L" exactly for LEFT and "R" exactly for RIGHT |
| Transitions.Equals | TransitionKey.java:22-29 | `equals` holds exactly when the other object is a key with the same symbol and an equal state: it is reflexive and false for null and for other classes |
| Transitions.StringHashCode | TransitionKey.java:33 | `String.hashCode`, computed as h = 31 * h + c in 32-bit arithmetic, equals the documented sum s[0]·31^(n-1) + … + s[n-1] wrapped into an int |
| Transitions.HashCode | TransitionKey.java:31-34 | `hashCode` is `Arrays.hashCode` of the state's and the symbol's hashes, as `Objects.hash(state, readSymbol)` specifies |
| Transitions.EqualKeysHashAlike | TransitionKey.java:31-34 | equal keys have equal hash codes, whatever hash the enum constants get |
| Transitions.KeyToString | TransitionKey.java:36-40 | `toString` is "(", then the state, then ", ", then a character that reads back as the symbol, then ")" |
| Transitions.KeyToStringInjective | TransitionKey.java:39 | different keys print differently |
| Transitions.ValueToString | TransitionValue.java:23-27 | `toString` is "-> (", then the next state, then ", ", then a character that reads back as the written symbol, then ", ", then the move's character, then ")" |
| Transitions.ValueToStringInjective | TransitionValue.java:26 | different values print differently |
| Genome.DecodeState | src/Turingmachine.java:43-46 | `decodeState` succeeds exactly on one or more '0' and otherwise fails with the code |
| Genome.DecodeStateOfCode | src/Turingmachine.java:43-46 | n+1 zeros decode to "q" followed by n |
| Genome.DecodeStateInjective | Turingmachine.java:45-48 | different codes decode to different states |
| Genome.DecodeFields | src/Turingmachine.java:91-107 | the five fields decode exactly when state, symbol, state, symbol and move all decode; a failure is reported against the whole rule |
| Genome.DecodeRule | src/Turingmachine.java:79-107 | only the empty segment is skipped. The rule fails with an invalid rule format, carrying its field count, exactly when the segment is non-empty and has neither 5 fields nor 6 with the first empty. Any other failure is a field that did not decode |
| Genome.ScanRules | src/Turingmachine.java:78-108 | the table only gains keys, and when no rule fails every rule decoded and every rule's key is in the table |
| Genome.DecodeGenome | src/Turingmachine.java:72-113 | the empty genome is refused, and a decoded table is never empty |
| Genome.ScanStopsAtFirstFailure | src/Turingmachine.java:105-107 | the parse fails with the error of the first rule that does not decode |
| Genome.FirstFailure | src/Turingmachine.java:78-107 | if some rule fails, there is a first failing rule, with every earlier rule decoding |
| Genome.MalformedSegmentFails | src/Turingmachine.java:80-88 | a non-empty segment with neither 5 fields nor 6 with the first field empty makes the genome fail. When every earlier segment decodes, the error is that segment's invalid rule format with its field count |
| Genome.SplitEncodedRule | src/Turingmachine.java:79-85 | an encoded rule splits into its five codes, and with a leading "1" into an empty field and the five codes |
| Genome.DecodeFieldsOfRule | src/Turingmachine.java:92-99 | the five codes of a rule decode to its key and value |
| Genome.DecodeRuleOfEncoding | src/Turingmachine.java:79-104 | an encoded rule decodes to the rule, with or without a leading "1" |
| Genome.SplitEncodedGenome | src/Turingmachine.java:77 | an encoded genome splits on "11" into the encoded rules |
| Genome.ScanEncodedRules | src/Turingmachine.java:78-108 | scanning encoded rules never fails and builds the table the rules describe |
| Genome.DecodeGenomeOfEncoding | src/Turingmachine.java:72-113 | decoding the encoding of a non-empty list of rules gives the table those rules describe |
| Genome.TableOfHasEveryKey | src/Turingmachine.java:104 | every rule's key is in the table |
| Genome.LastRuleWins | src/Turingmachine.java:101-104 | the table holds the value of the last rule with a given key |
| Genome.TableOfUntouched | src/Turingmachine.java:104 | rules for other keys leave a key's entry alone |
| Genome.DemoGenome | src/Turingmachine.java:319 | the first demonstration genome decodes to exactly its four rules |
| Engine.Read | src/Turingmachine.java:168 | `getOrDefault` gives the stored symbol, or BLANK for a cell never written |
| Engine.ReadAfterPut | src/Turingmachine.java:179 | after `put`, the cell written reads the new symbol and every other cell reads as before |
| Engine.InitialStateIsStateZero | src/Turingmachine.java:7 | the initial state `q0` is the state named by the one-zero code |
| Engine.Step | src/Turingmachine.java:163-197 | a halted step changes nothing; with no rule only `halted` is set; otherwise the state and the written cell change and every other cell reads the same; the head moves by exactly one; the new head cell is materialised; one step is counted; halting happens at 10000 |
| Engine.StepKeepsSane | src/Turingmachine.java:191-196 | a step never clears `halted`, adds at most one step and never goes past 10000 steps |
| Engine.SaneHeadFitsInt | src/Turingmachine.java:181-185 | the head stays far inside the int range, so `headPosition++` and `--` never wrap |
| Engine.StepRespectsSameReads | src/Turingmachine.java:187-189 | materialising a BLANK cell changes no behaviour: tapes that read alike stay alike |
| Engine.Run | src/Turingmachine.java:218-239 | the run loop ends halted after at most 10000 steps, and a halted machine is not changed |
| Engine.RunHaltReason | src/Turingmachine.java:218-239 | without an abort, a run stops only at 10000 steps or when no rule matches the final state and symbol |
| Engine.TapeString | src/Turingmachine.java:119-137 | binary input is used as it is; otherwise a non-number or a negative number is refused; the result is always binary |
| Engine.DecodePrefix | src/Turingmachine.java:143-151 | the cells written before the first character `fromChar` refuses |
| Engine.BinaryDecodes | src/Turingmachine.java:143-151 | every character of the loader's string decodes, so the internal-error branch never fires |
| Engine.InitialTape | src/Turingmachine.java:139-145 | the tape holds cells 0 to n only, cell 0 is BLANK, and cell p holds the p-th symbol |
| Engine.Load | src/Turingmachine.java:116-158 | loading succeeds exactly when the input is accepted |
| Engine.LoadBinary | src/Turingmachine.java:119-156 | binary input occupies cells 1 to n verbatim, with cell 0 BLANK and nothing else; the head is 1, or 0 for empty input; the state is q0, with 0 steps and not halted |
| Engine.LoadDecimal | src/Turingmachine.java:123-156 | a decimal d ≥ 0 becomes d ZERO cells after the BLANK cell 0, and the head is 1, or 0 for d = 0 |
| Engine.LoadFive | src/Turingmachine.java:124-132 | the input "5" reads as five ZERO cells from cell 1, with the head on cell 1 |
| Engine.Render | src/Turingmachine.java:308-312 | the window has one character per cell from lo to hi, each the display character of that cell |
| Engine.Window | src/Turingmachine.java:290-312 | the result spans the leftmost to the rightmost non-BLANK cell, or one cell when all are BLANK, and every character shows a tape symbol |
| Engine.WindowNeverEmpty | src/Turingmachine.java:314 | the extracted result is never empty, so "<empty>" is never printed |
| Engine.WindowOfBlankTape | src/Turingmachine.java:301-305 | an all-BLANK tape gives "_" |
| Engine.WindowShowsEveryCell | src/Turingmachine.java:294-312 | the result starts and ends with a non-blank character and shows every non-BLANK cell at its offset from the leftmost one |
| Engine.WindowOfSingleCell | src/Turingmachine.java:294-312 | a single non-BLANK cell gives exactly its character |
| Engine.WindowRespectsSameReads | src/Turingmachine.java:294-299 | the result depends only on what the tape reads, not on which BLANK cells exist |
| Machine.Construct | src/Turingmachine.java:27-36 | the two-argument constructor halts the machine exactly when the genome or the input is refused. A decoded genome gives the decoded table. A halted machine is otherwise fresh. A running one holds the loaded input in q0 |
| Machine.Turingmachine.constructor | src/Turingmachine.java:17-25 | a new machine is in q0 with cell 0 BLANK, the head on 0, no steps, no rules, and not halted |
| Machine.Turingmachine.Load | src/Turingmachine.java:27-36 | construction leaves the decoded table and the loaded input. If the genome fails, the rules read before the failure remain and the machine is halted. If the input fails, the machine is halted and otherwise fresh |
| Machine.Turingmachine.ParseTMCoding | src/Turingmachine.java:72-113 | the empty genome leaves the table alone. Otherwise the table is rebuilt from scratch. The method passes exactly when the genome decodes, with the decoded table, and a failure carries the decoder's error |
| Machine.Turingmachine.ParseRule | src/Turingmachine.java:79-107 | the loop body for one segment computes what the rule decoder specifies |
| Machine.Turingmachine.LoadInput | src/Turingmachine.java:116-158 | an accepted input gives the loaded configuration, a refused one changes nothing, and the table is untouched |
| Machine.Turingmachine.WriteInput | src/Turingmachine.java:139-157 | the tape is rebuilt from the decodable prefix. A full decode restarts the machine in q0; an undecodable character halts it with the head on 1 |
| Machine.Turingmachine.Step | src/Turingmachine.java:163-197 | the fields change exactly as `Engine.Step` says, and the table is untouched |
| Machine.Turingmachine.Run | src/Turingmachine.java:203-248 | the loop ends halted, in the configuration `Engine.Run` gives for the same aborts |
| Machine.Turingmachine.ExtractResult | src/Turingmachine.java:290-312 | the min/max scan over the tape and the loop between them produce exactly the result window |

## Left out

- `main`, in both copies, is command-line plumbing and is not modelled. This covers the usage text, the `[01]+` guard on the genome and the hard-coded demonstrations. The first demonstration genome is decoded in `Genome.DemoGenome`.
- `printState` and the printing in `printFinalState` and `run` are console output. Only the result extraction is modelled.
- The step-mode console dialogue in `run` is modelled as a function `quit(k)` that may halt the machine before step k. "run" only stops the prompting and changes nothing the model keeps, so it is not modelled separately.
- Messages of `System.out`, `System.err` and exceptions are not modelled. Failures are values of `Errors.DecodeError` and `Errors.CodecError`.
- Null strings are not modelled, because a Dafny string cannot be null. The null checks in `parseTMCoding` only matter for callers outside the class.
- JavaText.ParseInt: only ASCII digits are accepted. `Integer.parseInt` also accepts other Unicode decimal digits; those inputs are not modelled.
- Transitions.HashCode: the enum constants' identity hash changes from run to run, so it is a parameter. Beyond `Objects.hash` combining the two field hashes, only the consistency with `equals` is proved.
- Transitions.StringHashCode works on characters as Dafny `char` values, not on UTF-16 code units.
- The `TransitionValue` constructor is a Dafny datatype constructor. Storing its three fields unchanged holds by construction and needs no lemma.
- Tape positions are unbounded integers. `Engine.SaneHeadFitsInt` shows that the head never gets near the int range.
- Machine.Turingmachine.ExtractResult does not model the `int i` counter of the result loop wrapping. It could wrap only if the rightmost non-blank cell were at 2^31-1. That needs a decimal input of 2147483647, whose 2^31-1 map entries exhaust memory before the loop is reached.
- The "<empty>" fallback of the result message is unreachable (`Engine.WindowNeverEmpty`). The documentation says an all-blank tape yields an empty-result indicator. The code yields "_", and the model follows the code.
- The `long` step counter is a `nat`. It never exceeds 10000, so the difference is invisible.
