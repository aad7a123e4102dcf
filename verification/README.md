# Models of flex, of GMP's division and of mkcramfs

Dafny models of three parts of the repository, and proofs about them.

- **flex** (`pkg/flex`): the whole way from rules to tokens. Patterns become an NFA held in parallel arrays (`parse.y`,
  `nfa.c`), characters are divided into equivalence classes (`ecs.c`), the NFA becomes a DFA (`dfa.c`), the rows of the
  DFA are compressed into shared arrays (`tblcmp.c`) or laid out for full-speed scanners, the tables are emitted
  (`gen.c`), and the generated scanner reads them over its input buffer (`gen.c`, `skel.c`).
- **GMP** (`pkg/gmp`): division of a double word by a word, with and without a reciprocal, on words of any even number
  of bits (`longlong.h`, `gmp-impl.h`).
- **mkcramfs** (`pkg/cramfs`): from files to a file system image, a reader that goes back (`mkcramfs.c`), and the search
  for a file in the kernel (`os/linux-2.6/fs/cramfs/inode.c`).

Code that works in place is modelled in place: classes with the source's fields, arrays where the source has buffers of
fixed size, loops with invariants. Every such method is proved against functions and predicates on values. A fatal
message followed by an exit is a `Failure` with an error that names it.

## Main results

- **A scanner finds what its rules say.** `Generate.BuildScanner` takes any rules and start conditions through all
  stages; `Yylex.NextToken` is one call of `yylex` with the tables that come out. The token is the longest match, by the
  first rule among the longest (`Matcher.Longest`), where a rule matches what its pattern denotes (`Regex.Denotes`, the
  usual meaning of a regular expression, which mentions no machine). This holds for every chunking of the input, every
  size of buffer and both kinds of scanner, for texts with NULs, and at the end of the input. `Yylex.OneTokens` adds
  that a text has only one sequence of tokens.
- **Where it does not, the condition is exact.** A scanner with a separate table for transitions on NUL can forget a
  match or not come back, exactly when `Forgotten.Forgets` holds (see Findings), which `Forgotten.ForgetsMeans` says
  without the DFA, in terms of the rules. A 32766th template misleads the tables, and building stops there in the
  model (`Compression.Misled`); what that takes of the rules is said by `Templates.Crowds`.
- **Nothing is there in vain.** The DFA jams exactly where no rule can match any longer (`Prefixes.JamsExactly`), every
  state of it is reached by some text (`Prefixes.EveryState`), and the equivalence classes are the coarsest that the
  rules allow (`Generate.RulesDecide`).
- **Flex reads rules exactly when they fit.** The states that patterns and rules need are counted from the patterns
  alone (`Regex.States`, `Rules.RulesStates`); flex makes exactly as many, and stops if and only if they are more than
  30999, the rules more than `MAX_RULE`, or a character outside the set (`Rules.ReadRules`).
- **Every stage keeps the meaning.** The operators of `nfa.c` build machines for exactly the languages of their
  operands combined; classes of characters and NFA steps agree; the subset construction ends, and its rows are the
  closures of the successors; table compression loses nothing, and the lookup loop finds every row's target again.
  For full-speed scanners `SpeedGenerate.BuildSpeedScanner` goes the same way with tables of their own, and
  `SpeedScanner.SpeedLexer.SpeedScan` finds the same longest match.
- **The input buffer conserves the stream** through reading, growing, moving, pushing back and `input()`.
- **The divisions are exact**, with the bounds on their estimates: at most 3 too small with the reciprocal, at most 1
  without branches.
- **An image is read back as the tree it was made from if and only if every directory is smaller than 2^24 bytes**
  (`CramMain.MakeImage`), for any compression with an inverse, with linked duplicates, and with holes exactly where they
  were asked for. Its length is exact, and building it fails only where that does not fit.
- **The kernel finds every file in such an image.** It stops searching early in directories flagged as sorted, which
  they are not where long names have been cut; still each path leads to the first entry of its name
  (`CramLookup.Walk`), and to the file itself if no name on it had to be cut (`CramLookup.FitsFound`).

## Reading order

`Flexdef`, `Results`, then for flex `Sorting`, `Ccl`, `Ecs`, `Abstraction` (classes); `Languages`, `Nets`, `Machines`,
`Nfa` (machines); `Regex`, `Divisions`, `Patterns`, `Rules` (rules); `Subsets`, `Closure`, `StateSets`, `Partition`,
`Interning`, `Dfa` (subset construction); `Packing`, `Protos`, `Compression`, `Gentabs` (compressed tables); `Scanner`,
`Prefixes`, `Templates`, `Matcher`, `Generate`, `Forgotten`, `InputBuffer`, `Yylex`, `NulExample` (scanner);
`FullSpeed`, `SpeedScanner`, `SpeedGenerate` (full-speed scanner). For GMP `LongLong`, `Preinv`; for mkcramfs
`CramLayout`, `CramImage`, `CramData`, `CramFs`, `CramParse`, `CramMain`, `CramLookup`.

## Model

| member | source | states |
|---|---|---|
| Sorting.Bubble | pkg/flex/misc.c:144-157 | v[1..n] afterwards holds the same elements in ascending order, and nothing outside that range has moved |
| Sorting.CShell | pkg/flex/misc.c:257-286 | the n elements are a permutation of what they were, in ascending order; with the special case, 0 counts as larger than everything else and comes last |
| Ccl.CclTable.CclInit | pkg/flex/ccl.c:71-100 | a new, empty, unnegated class behind all others, which keep their members and signs |
| Ccl.CclTable.CclAdd | pkg/flex/ccl.c:35-66 | the class gains the character at its end exactly if it was not there; characters from csize on are refused; classes before it keep their members although the table may be reallocated |
| Ccl.CclTable.CclNegate | pkg/flex/ccl.c:105-109 | only the sign of this class changes |
| Ecs.InitLinks | pkg/flex/main.c:245-260 | one well-formed list with all of 1..n |
| Ecs.MkEccl | pkg/flex/ecs.c:115-205 | two symbols share a list afterwards exactly if they did before and are both in or both out of the class; the lists are still ascending and doubly linked, every flag is 0 again, nothing outside 1..llsiz is touched. A class of all characters is included: whatever the flag one past the end holds, the result is the same |
| Ecs.SkipFlagged | pkg/flex/ecs.c:197-203 | the scan to the next class member stops at a member that still needs processing, or at the end, whatever lies behind the flags |
| Ecs.SplitList | pkg/flex/ecs.c:140-190 | one list is divided in place into the members inside and outside the class, and exactly the flags of the inside members found on it are set |
| Ecs.MkEchar | pkg/flex/ecs.c:210-225 | afterwards the character is alone on its list, every other pair shares a list exactly if it did before |
| Ecs.Cre8Ecs | pkg/flex/ecs.c:76-97 | symbols get the same number exactly if they share a list; representatives are positive, ascending and use every number from 1 to the returned count, the others are marked by a negative number |
| Ecs.AllAlone | pkg/flex/ecs.c:76-97 | there are as many class numbers as symbols exactly if every symbol is alone; then each symbol has its own number |
| Abstraction.Ccl2Ecl | pkg/flex/ecs.c:35-65 | every class is compacted in place to the class numbers of the representatives among its members, as a Char stores them (256 becomes 0); no class disturbs another |
| Abstraction.ClassAbstraction | pkg/flex/ecs.c:35-65 | a character is in a class exactly if its class number is in the compacted class |
| Abstraction.BytesMapped | pkg/flex/dfa.c:955-980 | reading 0 as the class of NUL undoes what storing class 256 in a Char does |
| Abstraction.StepAbstraction | pkg/flex/dfa.c:923-1001 | a label matches a character exactly if the compacted label matches the character's class number, for characters and for plain and negated classes |
| Nets.AddEdge | pkg/flex/nfa.c:671-686 | what one new transition does to all languages between two states: words that do not use it, and words that use it any number of times |
| Nets.Frame | pkg/flex/nfa.c:148-183 | languages inside a closed range of states depend on that range only |
| Languages.StarUnroll | pkg/flex/nfa.c:395-399 | a star is the empty word or one word and a star |
| Languages.PlusLoop | pkg/flex/nfa.c:514-531 | a word, or a word and a loop back with star in between, is a plus |
| Languages.PowStar | pkg/flex/nfa.c:546-574 | n copies in front of a star are n or more copies |
| Languages.TimesNest | pkg/flex/nfa.c:546-574 | nested optional copies are 0 to k + 1 copies |
| Machines.Link | pkg/flex/nfa.c:293-311 | an epsilon transition from the final state of one machine to the start of another gives a machine for the concatenation |
| Machines.LoopBack | pkg/flex/nfa.c:514-531 | a transition from final to first state gives a machine for the plus |
| Machines.OrEps | pkg/flex/nfa.c:454-503 | a forking state in front and a common final state behind give a machine for the union |
| Machines.Copy | pkg/flex/nfa.c:148-183 | a range of states copied with an offset is a machine with the same words |
| Nfa.NfaBuilder.MkState | pkg/flex/nfa.c:593-658 | one new state without transitions behind all others, the arrays enlarged if needed; a character label takes the character out of its list in the partition, which stays as it is if it is alone already, or for other labels. Fails only at the maximum number of states or for a character beyond csize |
| Nfa.NfaBuilder.MkXtion | pkg/flex/nfa.c:671-686 | the transition is added exactly if the state has a free slot; the fatal branch leaves everything as it was |
| Nfa.NfaBuilder.LinkMachines | pkg/flex/nfa.c:293-311 | nothing if one of the machines is NIL, else one epsilon transition from the first final to the second start and the first machine's records extended over both |
| Nfa.LinkMade | pkg/flex/nfa.c:293-311 | what link_machines returns is a machine for the concatenation of the two languages, and every machine in front of it is as it was |
| Nfa.NfaBuilder.MkOr | pkg/flex/nfa.c:454-503 | a NIL operand gives the other one; otherwise a machine for the union in the range of both, every machine in front unchanged; one or two new states, and fails exactly if these do not fit, so the fatal branch of mkxtion is not reached |
| Nfa.NfaBuilder.MkOpt | pkg/flex/nfa.c:416-437 | a machine for the language with the empty word added; one new state, or two if the final state is not free, and fails exactly if these do not fit |
| Nfa.NfaBuilder.MkPosCl | pkg/flex/nfa.c:514-531 | a machine for one or more words of the language, whether or not the final state could take the back edge; a new state exactly if it could not |
| Nfa.NfaBuilder.MkClos | pkg/flex/nfa.c:395-399 | a machine for any number of words of the language; two or three new states |
| Nfa.NfaBuilder.DupMachine | pkg/flex/nfa.c:148-183 | a copy in new states behind all others, disjoint from the original, with the same language, with as many states |
| Nfa.NfaBuilder.CopySingl | pkg/flex/nfa.c:77-88 | num copies in a row, in new states: the num-th power of the language; the number of new states is exact |
| Nfa.NfaBuilder.MkRep | pkg/flex/nfa.c:546-574 | exactly lb to ub repetitions, or lb or more for INFINITY, for every lb of at least 1; the number of new states is exact, and it fails exactly if they do not fit |
| Nfa.NfaBuilder.AddAccept | pkg/flex/nfa.c:45-63 | the machine ends in an epsilon state with the accepting number, its language is the same, and no other state accepts anything new; a new state exactly if it ended in a symbol |
| Nfa.NfaBuilder.MkBranch | pkg/flex/nfa.c:367-384 | NIL gives the other operand; otherwise a new state from which exactly the two machines are entered |
| Patterns.GatherClass | pkg/flex/parse.y:678-742 | a new class with exactly the characters of the items of a bracket expression, sorted strictly with 0 last, its sign as written; it is a syntax error exactly if one of the items is a range without any character; other classes untouched |
| Regex.BadItemMeans | pkg/flex/parse.y:698-699 | an item of a bracket expression is malformed exactly if it is a range without any character |
| Regex.BadIterationMeans | pkg/flex/parse.y:554-578 | the bounds of {n,m} are refused exactly if no positive number of copies lies between them, or the lower one is negative |
| Patterns.PatternCompiler.NewClass | pkg/flex/parse.y:636-653 | the class is entered and the partition is divided by it, so that it is a union of lists |
| Patterns.PatternCompiler.AnyClass | pkg/flex/parse.y:614-634 | the class of "." is made once: all characters but newline |
| Divisions.ClassDivided | pkg/flex/parse.y:641-653 | mkeccl for a bracket expression separates exactly the characters of which it lists one and not the other |
| Divisions.CharDivided | pkg/flex/nfa.c:650-655 | mkechar for a character separates exactly this one from all others |
| Patterns.PatternCompiler.CompileSymbol | pkg/flex/parse.y:614-675 | characters, ".", bracket expressions and strings: the machine reads exactly the strings that the pattern denotes |
| Patterns.PatternCompiler.Compile | pkg/flex/parse.y:484-675 | every pattern of sequences, alternatives, strings, characters, classes, *, +, ? and all forms of {n,m}: the machine, read through the classes, accepts exactly the strings that the pattern denotes, and all machines and classes made before keep their meaning; the partition is divided exactly between the characters that the pattern tells apart. There is a syntax error exactly if the pattern is malformed. The number of states made is a function of the pattern (Regex.States); it fails exactly if they do not fit or a character is beyond csize |
| Patterns.PatternCompiler.Wrap | pkg/flex/parse.y:534-612 | each repetition operator: *, +, ? and all forms of {n,m}, {0,m} and {n,} included, turn the machine of a pattern into one for exactly the repetitions meant; senseless bounds are a syntax error, and the pattern stands for itself |
| Patterns.PatternCompiler.FromTo | pkg/flex/parse.y:554-578 | {lb,ub}: the branches for bounds out of order, for 0, where the copies become optional, and for 1 and more |
| Rules.RuleSet.constructor | pkg/flex/main.c:825-826 | no rules and no start conditions yet |
| Rules.RuleSet.ScInstal | pkg/flex/sym.c:226-250 | one more start condition with two start states, one for the beginning of a line, that reach no rule yet |
| Rules.RuleSet.AttachRule | pkg/flex/parse.y:219-276 | the rule is added to the start states of the conditions listed, or of all that are not exclusive, for ^ to those for the beginning of a line only; every other start state keeps its rules; one new state for each |
| Rules.RuleSet.MakeMachine | pkg/flex/nfa.c:198-274 | the machine of the rule ends in its own accepting number, its language is what the pattern, with the newline of $, denotes; earlier rules keep their meaning |
| Rules.RuleSet.AddRule | pkg/flex/parse.y:219-276 | one rule more, and everything known about rules, machines and start states holds again; two characters share a list exactly if no rule so far tells them apart; fails exactly if there are too many rules, the states of this one do not fit, or a character is beyond csize |
| Rules.ReadRules | pkg/flex/parse.y:113-180 | all start conditions and rules, from the first state on: flex can read them if and only if there are at most MAX_RULE rules, all characters are in the set, and the states counted from the patterns are at most 30999; then exactly as many have been made |
| Rules.RuleSet.MakeStarts | pkg/flex/dfa.c:547-565 | for every start condition two start states, the second also with the rules for the beginning of a line: from each, exactly the machines of its rules are reached; one new state for each start condition |
| StateSets.StateSet.EpsClosure | pkg/flex/dfa.c:245-362 | the result is the input plus every state reachable by epsilon transitions that accepts or has a symbol, each new one once; the accepting numbers are those of the reached states; the hash value is the sum of the distinct members; the marks in trans1 are gone again; it terminates |
| StateSets.StateSet.Unmark | pkg/flex/dfa.c:346-355 | all visit marks in trans1 are taken back |
| Partition.Symbols.SymFollowSet | pkg/flex/dfa.c:923-1001 | the list of successors by a class number, member by member: exactly those whose label matches it; neither "consistency check" is reached |
| Partition.Symbols.SymPartition | pkg/flex/dfa.c:1011-1093 | symlist marks exactly the class numbers on which something follows; class numbers linked in duplist are matched by the same members; duplist leads to a smaller number of the same list or is 0; neither "consistency check" is reached |
| Partition.SameFollow | pkg/flex/dfa.c:608-640 | class numbers on one list of duplist have the same successors |
| Subsets.ModelsStep | pkg/flex/dfa.c:608-676 | a list that stands for the states reached on a word, followed by a symbol and closed, stands for the states reached on the longer word |
| Subsets.ModelsJam | pkg/flex/dfa.c:1011-1093 | nothing follows exactly if no state is reached on the longer word |
| Interning.FollowBounded | pkg/flex/dfa.c:923-1001 | no state with a symbol is reached twice from a bounded list, as symbol states have one symbol predecessor only |
| Interning.TargetBounded | pkg/flex/dfa.c:245-362 | closing such a list keeps it bounded: the list may hold duplicates, but at most twice as many entries as there are states |
| Dfa.DfaBuilder.Finite | pkg/flex/dfa.c:590-600 | the number of DFA states never exceeds the number of bounded lists over the NFA states, which is why the worklist ends |
| Dfa.DfaBuilder.Snstods | pkg/flex/dfa.c:791-913 | the number of a recorded state with the same members: an old one, found by hash and comparison, or a new one only if there was none; recorded states stay; a new one gets the smallest accepting number |
| Dfa.DfaBuilder.FollowSymbol | pkg/flex/dfa.c:614-644 | the state for one symbol stands for the closure of exactly the successors |
| Dfa.DupTarget | pkg/flex/dfa.c:649-671 | for a duplicate symbol the state of the earlier one has been set, and is found in targstate |
| Dfa.DfaBuilder.MakeRow | pkg/flex/dfa.c:592-677 | the row of a DFA state: for each class number the state of the closure of its successors, or 0 if there are none; the counts of transitions and targets are exact; every state that is new is a target of this row |
| Dfa.DfaBuilder.MostCommon | pkg/flex/dfa.c:736-750 | the most frequent target, the first one noted among several, with its frequency |
| Dfa.DfaBuilder.SpareNul | pkg/flex/dfa.c:701-705 | with a table for NUL the transition on NUL goes there and out of the row, nothing else changes |
| Dfa.DfaBuilder.EnterRow | pkg/flex/dfa.c:701-760 | the row goes to the compressor, or becomes the end-of-buffer row; all rows stay tabled, and the number of transitions is exact except for the missing decrement for NUL. Fails only with a row for which template 32766 misleads the tables |
| Dfa.DfaBuilder.MakeStartStates | pkg/flex/dfa.c:547-577 | one DFA state for each start state, in order, recorded as its closure |
| Dfa.DfaBuilder.MakeEob | pkg/flex/dfa.c:579-588 | the end-of-buffer state is new: "could not create unique end-of-buffer state" is not reached |
| Dfa.DfaBuilder.Ntod | pkg/flex/dfa.c:393-778 | the worklist ends with every DFA state's row made and handed to the tables, the start states first, then the end-of-buffer state; every row leads to the closures of the successors. Fails only with a row for which template 32766 misleads the tables |
| Generate.NumberClasses | pkg/flex/main.c:1036-1046 | classes of characters are numbered and class tables compacted so that labels match class numbers exactly as they matched characters; two characters get one number exactly if they share a list |
| Generate.RulesDecide | pkg/flex/ecs.c:76-97 | the classes are the coarsest that the rules allow: two characters have one class number if and only if no rule tells them apart; there are as many classes as characters if and only if the rules tell all apart, and there is one class if and only if they tell none apart |
| Generate.GenEcs | pkg/flex/gen.c:228-265 | yy_ec gives every character but NUL its class number, and NUL 0 |
| Packing.PackedTables.ExpandNxtChk | pkg/flex/tblcmp.c:301-314 | both arrays grow, what was there stays, the new part of chk is 0 |
| Packing.PackedTables.MkEntry | pkg/flex/tblcmp.c:517-638 | the row's transitions that differ from the link go to free slots, whose chk names the state: a sparse row to the first place from firstfree on that suits it without a negative base, any other behind everything else; firstfree and tblend move on as they should, and all other entries keep what they say. With a number of transitions that is one too large, the entry that follows the row in memory may be stored as well, and nothing else |
| Packing.PackedTables.Stack1 | pkg/flex/tblcmp.c:836-850 | an entry of one transition is put off, or stored at once exactly if the stack is full; no entry is lost |
| Packing.PackedTables.Mk1Tbl | pkg/flex/tblcmp.c:645-667 | one transition and its default at the first free place from firstfree on that is not in front of the symbol's number; firstfree and tblend follow, all other entries keep what they say |
| Packing.PackedTables.DrainStack | pkg/flex/dfa.c:763-771 | the entries put off are stored, none is left and none is changed |
| Packing.PackedTables.MkDefTbl | pkg/flex/tblcmp.c:467-495 | the jam state gets a row of its own directly behind all others: no transition but the end-of-buffer one; its base is larger than that of any other state |
| Protos.ProtoQueue.MkProt | pkg/flex/tblcmp.c:672-704 | a new proto in front, in a new slot, or in that of the least recently used one, which is dropped, exactly when slots or saved rows are full; its row, number and common target are stored, the other rows are untouched; the links are one list from firstprot to lastprot |
| Protos.ProtoQueue.Mv2Front | pkg/flex/tblcmp.c:764-782 | the element is first, all others keep their order, the links are one list again |
| Protos.ProtoQueue.TblDiff | pkg/flex/tblcmp.c:867-887 | the number of differing transitions, and the entry that makes the state out of the proto: its own targets where it differs, SAME_TRANS elsewhere, the jam state where only the proto goes on |
| Compression.Compressor.FirstProto | pkg/flex/tblcmp.c:117-149 | the proto looked at first and its distance; where there is none to look at, the number of transitions stands for it |
| Compression.Compressor.SelectProto | pkg/flex/tblcmp.c:117-168 | the search of bldtbl: it begins with the first proto that has the same common target, where the row has one that is frequent, and with the first of all otherwise; unless that is close enough, no proto from there on differs from the row in fewer classes than the one selected, which is the first of those that differ so little; extrct[extptr] is the difference against it, and mindiff the number of differences |
| Compression.Compressor.MkTemplate | pkg/flex/tblcmp.c:711-759 | a template: the common target wherever the row has a transition; it is queued in front, the row is entered as exactly its difference against it, and the meta classes are divided by its support |
| Compression.Compressor.EnterDiff | pkg/flex/tblcmp.c:178-195 | the row is entered as exactly its difference against a proto, and found through it |
| Compression.Compressor.BldTbl | pkg/flex/tblcmp.c:78-217 | the row is added to the tables, and its entry determines exactly this row; all rows before stay determined. What is stored is exact: the row itself where it has few transitions; its difference against the proto selected where that is close enough; otherwise a template if most transitions go to one state, or the row as a new proto. So is the queue of protos: which rows are queued in front, which one is dropped, which moves to the front. It stops only if a template is needed when 32765 have been made |
| Compression.LastTemplate | pkg/flex/tblcmp.c:711-759 | template number 32766 has the link JAMSTATE: the entry that mktemplate writes for such a row does not determine the row |
| Compression.MadeExactly | pkg/flex/tblcmp.c:536-551 | where the number of transitions is exact, mkentry stores the row's own transitions only |
| Compression.StrayEntry | pkg/flex/dfa.c:701-705 | where only the transition on NUL is missing from the count, the additional entry of mkentry does not change what the row is |
| Compression.Compressor.MoreDfas | pkg/flex/dfa.c:367-384 | there is room for more states, and the tables say the same |
| Compression.Compressor.CmpTmps | pkg/flex/tblcmp.c:228-295 | every template is stored compressed by meta classes, all of whose symbols the template treats alike; all rows stay determined |
| Gentabs.GenTabs | pkg/flex/gen.c:784-1026 | what the emitted arrays hold: JAMSTATE links and empty slots are redirected to the jam state, states with no transitions to its base, templates linked to it, accepting numbers per state |
| Gentabs.MakeTables | pkg/flex/gen.c:784-1026 | cmptmps, mkdeftbl and gentabs together: the emitted tables hold all rows, and accept the accepting numbers |
| Gentabs.LookupStep | pkg/flex/gen.c:443-484 | every step of a lookup is inside the arrays, follows the chain of links downwards, enters templates once, and what it finds where chk agrees is the row's target |
| Gentabs.NextState | pkg/flex/gen.c:443-484 | the lookup loop terminates for every state and class number, the end-of-buffer 0 included, stays inside the arrays, goes through yy_meta at most once, and ends with exactly the row's target, or the jam state for 0 |
| Gentabs.AllJam | pkg/flex/gen.c:570-583 | a state whose base is that of the jam state has a row of zeros and no additional entry |
| Scanner.RunMeans | pkg/flex/dfa.c:590-764 | after every string of class numbers the DFA state stands for exactly the NFA states reached on it, and the DFA has jammed exactly if there are none |
| Scanner.MatchReaches | pkg/flex/parse.y:219-276 | a rule that is active in a start state matches a string exactly if its final state is reached on the class numbers of the string |
| Prefixes.EveryState | pkg/flex/dfa.c:590-764 | every DFA state but the end-of-buffer state is the one in which some text ends, from some start state |
| Prefixes.JamsExactly | pkg/flex/dfa.c:590-764 | the DFA has jammed behind a string exactly if no rule matches the string or any longer one that begins with it: no state is reached in vain |
| Matcher.AcceptText | pkg/flex/dfa.c:856-908 | the accepting number of the state after a text is that of the first rule that matches the text, 0 if none does |
| Matcher.OneLongest | pkg/flex/gen.c:384-404 | a text has one longest match, and one first rule for it |
| Matcher.Lexer.StepText | pkg/flex/gen.c:598-659 | one step in recomputing a state: by the tables, or for NUL by yy_NUL_trans if there is one, to exactly the DFA state of the text that is one character longer |
| Matcher.Lexer.YyMatch | pkg/flex/gen.c:489-593 | the match loop and find_action on any window of the text, interactive or not, resumed anywhere: the longest match but for the position that may have been forgotten, or it stands behind a character 0 in the buffer and the state in front of it is known |
| Matcher.Lexer.GetPreviousState | pkg/flex/skel.c:879-899 | the state after the text scanned so far, recomputed from the start, NULs included, and the last accepting state on the way |
| Matcher.Lexer.TryNulTrans | pkg/flex/skel.c:901-925 | the state behind a NUL, or none; the accepting state in front of the NUL is noted with the compressed tables, and is not with a table for NUL |
| Matcher.Lexer.BackUp | pkg/flex/gen.c:1541-1567 | where the DFA jams on a NUL: the longest match, except that a scanner that is not interactive and has a table for NUL may lose the one in front of the NUL |
| Matcher.Lexer.LastMatch | pkg/flex/skel.c:633-642 | at the end of the input the match found is the longest one |
| Matcher.JamBase | pkg/flex/gen.c:574-583 | an interactive scanner stops without looking at the next character only in a state that has no transition at all, not even on NUL |
| Matcher.JamBaseBack | pkg/flex/gen.c:574-583 | and it does so in every such state |
| Forgotten.FoundRight | pkg/flex/gen.c:679-683 | what the match loop ends with is the longest match if and only if it is not forgotten: no longest match stands in front of a NUL, behind the place where the buffer was filled last, behind which the scanner stops before it comes to another NUL |
| Forgotten.BackUpRight | pkg/flex/gen.c:733-741 | the same where the DFA jams on a NUL |
| Forgotten.NulForgets | pkg/flex/gen.c:679-683 | only a scanner with a table for NUL forgets, and only in a text with a NUL |
| Forgotten.ForgetsMeans | pkg/flex/gen.c:679-683 | the same condition said in terms of the rules alone: which strings they match, and which beginnings can still be continued to a match |
| Forgotten.IdleEnds | pkg/flex/gen.c:574-583 | the states in which an interactive scanner stops at once are those from which no rule goes on with any character |
| Forgotten.EndlessExample | pkg/flex/gen.c:733-741 | the rules "a\0b", one with all characters in a row, and the default rule: every character has its own class, so there is a table for NUL; on the text a, NUL, c the DFA runs behind the NUL, jams on c, and the match of a is forgotten; there is no other |
| NulExample.NeverBack | pkg/flex/gen.c:733-741 | these rules through the whole generator, and one call of yylex on that text, interactive or not: it does not come back, without any condition |
| Templates.Crowds | pkg/flex/tblcmp.c:78-245 | templates run out only if, for rules whose bracket expressions all have characters, there are 32765 different texts behind each of which characters of at least 15 percent of the classes can follow by the rules |
| Generate.BuildScanner | pkg/flex/main.c:131-165 | any rules, start conditions and modes: the scanner has the rules given and the default rule, every start state those meant for it, each single character is matched in each of them, and tables, rows, DFA and NFA agree, as Yylex.NextToken needs it. No state of the DFA is superfluous (AllReached). It is built if no rule is malformed, one more rule is allowed and the states of the default rule and the start states fit, unless template 32766 stops it, which takes rules that are Overloaded (Templates.Crowds); and it fails only for these reasons. Classes are those of RulesDecide, and there is a table for NUL exactly if the rules tell all characters apart |
| Generate.MakeLexer | pkg/flex/gen.c:1057-1180 | from a finished NFA to a valid scanner; it has a table for NUL exactly if the rules tell all characters apart |
| Yylex.BeforeAction | pkg/flex/skel.c:296-310 | yytext is what has been matched, and what follows it is what is left to scan |
| Yylex.PassedZero | pkg/flex/skel.c:524-598 | a character 0 in the buffer is a NUL of the text exactly if it is in front of the end; otherwise more has been read, or only the pending text is left, or nothing; no character is lost |
| Yylex.EndOfBuffer | pkg/flex/skel.c:524-660 | the end-of-buffer action: the scanner goes on with the right state and the last accepting state on the way, or has found the last match, or the input is at its end; the text is still the same |
| Yylex.PassAgain | pkg/flex/skel.c:556-588 | if nothing but the passed NUL has been noted, the end-of-buffer action gives back the configuration the scanner was in: it does not come back |
| Yylex.NextToken | pkg/flex/skel.c:454-660 | one call of yylex, for every chunking of the input, buffer size and mode: the token is the longest match by the first rule and the rest of the stream is left, for texts with NULs and at the end of the input too; with a table for NUL it is that if and only if Forgets does not hold for the place where the buffer was filled last during the call, and else the match that remains when the one in front of a NUL is forgotten; Endless is returned only where no match remains |
| Yylex.OneRound | pkg/flex/skel.c:454-660 | the match loop and the end-of-buffer action behind it: the call is at its end with the right token, or matching goes on from a position that is further on, or with less input unread |
| Yylex.ScanAll | pkg/flex/skel.c:454-660 | calls up to the end of the input: each token is right for some place where the buffer was filled, and they go to the end of the text unless a call matches nothing or does not come back; without a NUL that meets a table for NUL the tokens are those of the text, each the longest match of what is left, and put together they are the text |
| Yylex.OneTokens | pkg/flex/skel.c:454-660 | a text has one sequence of tokens: they do not depend on chunks, buffer size or mode |
| Yylex.TakeBack | pkg/flex/nfa.c:235-262 | the action of a rule with trailing context of n characters gives exactly these back to the input; yytext loses them |
| Yylex.EolMeans | pkg/flex/parse.y:424-468 | a token of a rule with $ is a string of its pattern followed by a newline |
| InputBuffer.Buffer.constructor | pkg/flex/skel.c:1127-1156 | an empty buffer in front of the whole input |
| InputBuffer.Buffer.ScanBuffer | pkg/flex/skel.c:1264-1300 | a buffer over a string that ends in two NULs; the string is the stream |
| InputBuffer.Buffer.Restart | pkg/flex/skel.c:1057-1071 | everything in the buffer is dropped, the stream is what is unread |
| InputBuffer.Buffer.GetNextBuffer | pkg/flex/skel.c:746-876 | for every chunking and growth: the pending text followed by what is unread is the same before and after, two NULs behind; the answer says whether characters came, or only pending text is left, or nothing. Overflow only in a buffer that is not its own and is full |
| InputBuffer.Buffer.Refill | pkg/flex/skel.c:786-850 | what is moved, read and still unread is what was there; a buffer too small is made larger until something fits |
| InputBuffer.Buffer.Enlarge | pkg/flex/skel.c:811-823 | the buffer is twice as large, or an eighth larger where doubling overflows an int; what was in it stays |
| InputBuffer.Buffer.Unput | pkg/flex/skel.c:928-975 | the character is in front of the stream, NULs included, whether or not the text was moved, and yytext stays where it was in the text; it fails exactly if there is no room for it even after moving |
| InputBuffer.Buffer.Input | pkg/flex/skel.c:979-1052 | the first character of the stream and the rest of it, or the end exactly if the stream is empty; a 0 stands behind the text then; fails only if the position is behind the end already, or in a full buffer that cannot grow; says when the count of a new buffer is not adjusted |
| InputBuffer.UnputInput | pkg/flex/skel.c:928-1052 | unput and then input give back the character and leave the stream as it was |
| InputBuffer.CountMissed | pkg/flex/skel.c:1001-1016 | a buffer that is new and was read by input() at its end reports "end of buffer missed" at the next end |
| InputBuffer.TwoInputs | pkg/flex/skel.c:979-1052 | two characters, read one at a time, before the scanner has begun: the third input() ends in that error |
| FullSpeed.FullTables.FindTableSpace | pkg/flex/tblcmp.c:336-427 | the first place, from firstfree on or near the end for a row with many transitions, where all slots that the row needs are free, and so are the two in front of it; firstfree moves behind it where the search began there |
| FullSpeed.FullTables.PlaceState | pkg/flex/tblcmp.c:792-826 | the row is stored at that first place; bases are different, every slot has one owner, all rows before stay as they are |
| FullSpeed.FullTables.GenCtbl | pkg/flex/gen.c:132-223 | comparing the stored symbol alone decides every transition, base and offset lead to the base of the target, slot 0 is taken for the end of the buffer only and slot -1 is the action; the array written fits the declared size exactly if there are two classes or more |
| FullSpeed.SpeedMatch | pkg/flex/gen.c:529-557 | the match loop finds the longest accepted prefix, backing up if needed, or comes to the end of the buffer while the rows still go on; the same without the code for backing up where no state needs it |
| SpeedScanner.NtodSpeed | pkg/flex/dfa.c:506-778 | ntod for a full-speed scanner, without an end-of-buffer state: the worklist ends with every state's row made and placed behind the empty row of state 0, the start states first; every row leads to the closures of the successors; the states to back up from are counted, each once: those behind the start states that accept nothing |
| SpeedScanner.BacksUp | pkg/flex/dfa.c:49-74 | a state counts exactly if it does not accept and is no start state |
| SpeedScanner.RunLeaves | pkg/flex/dfa.c:547-577 | a start state is never entered again |
| SpeedScanner.NoBacking | pkg/flex/gen.c:84-105 | where all other states accept, the scanner stops in an accepting state, and needs no code for backing up |
| SpeedGenerate.BuildSpeedScanner | pkg/flex/main.c:131-165 | any rules and start conditions: a full-speed scanner with its table, which decodes to the rows of the DFA, each of them reached. It is built if and only if no rule is malformed, one more rule is allowed and the states of the default rule and the start states fit; what genctbl writes fits the size declared if and only if the rules tell some characters apart |
| SpeedGenerate.OneClass | pkg/flex/gen.c:132-223 | no rules but the default rule: the scanner is built, and more entries are written than declared |
| SpeedScanner.SpeedLexer.SpeedScan | pkg/flex/gen.c:529-557 | a full-speed scanner, with or without code for backing up, finds the longest match by the first rule of the same rules, in the sense of Longest; or it comes to the end of the buffer exactly while the NFA can go on |
| LongLong.AddSsaaaa | pkg/gmp/longlong.h:1318-1325 | the sum of two double words modulo the square of the base |
| LongLong.SubDdmmss | pkg/gmp/longlong.h:1328-1335 | the difference of two double words modulo the square of the base |
| LongLong.UmulPpmm | pkg/gmp/longlong.h:1338-1361 | the exact product of two words as a double word, although the middle sum may carry |
| LongLong.DigitEstimate | pkg/gmp/longlong.h:1383-1396 | the quotient digit from the upper half of the divisor is at most 2 too large |
| LongLong.DivideDigit | pkg/gmp/longlong.h:1383-1405 | one half-word of the quotient and its remainder, exact although the steps wrap |
| LongLong.UdivQrnndC | pkg/gmp/longlong.h:1376-1410 | the exact quotient and remainder of a double word by a word with its top bit set, for n1 < d, at every even word size |
| Preinv.ReciprocalClose | pkg/gmp/gmp-impl.h:209-213 | the reciprocal as specified lacks at most d |
| Preinv.FullEstimate | pkg/gmp/gmp-impl.h:214-221 | the estimate qh + nh is never too large and at most 3 too small |
| Preinv.UdivQrnndPreinv | pkg/gmp/gmp-impl.h:209-239 | the exact quotient and remainder for a normalized divisor, nh below it, and its reciprocal, at every even word size |
| Preinv.AdjustedEstimate | pkg/gmp/gmp-impl.h:259-277 | the estimate of the branch-free form is never too large and at most 1 too small |
| Preinv.EstimateQuotient | pkg/gmp/gmp-impl.h:259-272 | the masks and wrapping sums compute the complement of that estimate |
| Preinv.UdivQrnndPreinv2Norm | pkg/gmp/gmp-impl.h:259-277 | the same quotient and remainder without branches |
| CramLayout.StoredKept | pkg/cramfs/mkcramfs.c:471-562 | a tree in the image stays readable while bytes are written elsewhere |
| CramImage.RomImage.SetDataOffset | pkg/cramfs/mkcramfs.c:422-438 | the offset of the inode is set and nothing else; fails exactly for offsets that are not multiples of 4 or too large |
| CramImage.RomImage.WriteList | pkg/cramfs/mkcramfs.c:488-528 | the entries of a directory one behind the other, padded names included, its subdirectories on the stack; fails exactly if they do not fit |
| CramImage.ReverseFrom | pkg/cramfs/mkcramfs.c:530-546 | the part of the stack that the directory has added is reversed, the rest is not touched |
| CramImage.RomImage.WriteDirectoryStructure | pkg/cramfs/mkcramfs.c:471-562 | every directory's entries in one piece, in preorder of the directories, each directory pointing to its own; offsets are multiples of 4; the end is the start plus the bytes of all entries; fails only for lack of room or beyond what an inode can point to |
| CramData.DoCompress | pkg/cramfs/mkcramfs.c:608-658 | pointers and blocks of a file, one behind the other: every block is found between its pointers, compressed, and it has no bytes exactly if holes were asked for and all its bytes are 0; the result is the end of these bytes rounded up to 4; bytes in front stay; it fails exactly if they do not fit. "Block too large" is not reached |
| CramData.Reads | pkg/cramfs/mkcramfs.c:608-658 | reading through the pointers gives back the bytes of the file, holes included |
| CramData.FindIdenticalFile | pkg/cramfs/mkcramfs.c:190-212 | the search comes to the file itself, to the first file with the same contents, which the link is set to, or to neither |
| CramData.EliminateDoubles | pkg/cramfs/mkcramfs.c:214-222 | every file gets the link of the specification SameAs, other entries keep theirs |
| CramData.LinksBack | pkg/cramfs/mkcramfs.c:190-222 | a file is linked exactly if an earlier file has the same contents, and it is linked to one that is not linked itself |
| CramFs.WriteContents | pkg/cramfs/mkcramfs.c:666-681 | the contents of one entry: a link reads an offset already assigned and adds no bytes, a new file is written behind the others and adds exactly its own; bytes in front that belong to no entry stay |
| CramFs.WriteData | pkg/cramfs/mkcramfs.c:666-687 | the contents of all files in order; the result is where the bytes of those that are not linked end; every directory stays as it is, and so do free bytes in front; it fails only if they do not fit, or reach beyond what an inode can point to |
| CramFs.ReadsBack | pkg/cramfs/mkcramfs.c:471-562 | a reader that follows size, offset and name length rebuilds the tree of entries, directories, names, modes, owners, contents |
| CramFs.BuildImage | pkg/cramfs/mkcramfs.c:858-895 | directories and contents in one image, from offset0 to exactly where the bytes of all of them end, and nothing in front: every block is packed as asked, and the image is read back as the tree it was made from if all directories fit their size field; it fails only if the bytes do not fit, or an offset does not fit an inode |
| CramFs.ReservingEnough | pkg/cramfs/mkcramfs.c:364-371 | what parse_directory reserves is enough for directories and contents, unless there is a link without contents, whose pointers alone take more |
| CramParse.CutName | pkg/cramfs/mkcramfs.c:298-311 | the name is cut to what an inode can hold without dividing a UTF-8 sequence; refused exactly if it cannot be cut |
| CramParse.CutOnly | pkg/cramfs/mkcramfs.c:298-311 | there is only one way to cut a name |
| CramParse.Classify | pkg/cramfs/mkcramfs.c:327-362 | what becomes of a file: kept with size and contents, skipped if it cannot be read, refused exactly for an unknown type |
| CramParse.TypesKept | pkg/cramfs/mkcramfs.c:324-362 | the types that are kept, by their numbers: pipes, devices of both kinds, directories, files, links, sockets |
| CramParse.ParseDirectory | pkg/cramfs/mkcramfs.c:233-380 | the entries mirror the files that are kept, with cut names; the total is the bytes of the entries, and exactly the bytes of inodes, names and contents are reserved, those of inodes left out later included; it fails exactly for names that are too long or cannot be cut, and for unknown types, with the error at the first of them |
| CramParse.TooWide | pkg/cramfs/mkcramfs.c:497 | no image at all is read back as a tree with a directory beyond 24 bits |
| CramMain.ReadsExactly | pkg/cramfs/mkcramfs.c:471-562 | an image that holds a tree gives it back if and only if every directory, the root included, is smaller than 2^24 bytes |
| CramMain.Prepare | pkg/cramfs/mkcramfs.c:713-848 | main up to the mapping: the root has the mode and the owner of the directory; the estimate is what was asked for, rounded up to blocks; the tree begins behind the pad bytes, the superblock and an included file, rounded up to 4 |
| CramMain.MakeImage | pkg/cramfs/mkcramfs.c:713-895 | from files to an image: names and types are refused exactly where parse_directory refuses them; otherwise the length is where directories and contents end, rounded up to blocks, and it fails only if that exceeds the estimate or the largest image, or an offset exceeds an inode; nothing is written in front of the tree, which begins behind the superblock and what is included; holes are exactly those asked for; the tree is read back if and only if every directory is smaller than 2^24 bytes |
| CramMain.LargestFits | pkg/cramfs/mkcramfs.c:71-73 | the largest image: a file of the largest size at the largest offset, with its pointers |
| CramMain.WideDirectory | pkg/cramfs/mkcramfs.c:497 | 63551 files with names of 252 letters, in the order of cramsort: the image is built and the tree is not read back from it |
| CramMain.Overfull | pkg/cramfs/mkcramfs.c:848-858 | 1100000 such files: after the warning the image is too small, and building it fails |
| CramMain.EmptyLink | pkg/cramfs/mkcramfs.c:608-613 | a symbolic link without contents, where readlink accepts a size of 0: the unsigned (size - 1) / blksize + 1 asks for pointers that do not fit |
| CramLookup.CutOrder | pkg/cramfs/mkcramfs.c:226-231 | names in the order of cramsort that are cut to the same length do not change places |
| CramLookup.MirrorsOrderly | pkg/cramfs/mkcramfs.c:233-380 | in every directory that is made, first characters never get smaller, and no entry stands in front of one of the same length that belongs in front of it |
| CramLookup.Lookup | os/linux-2.6/fs/cramfs/inode.c:454-508 | the kernel's search in a directory, in order or not: the first entry with the name, unless an entry in front of it ends the search, which in a directory flagged as sorted is one that begins with a larger character, or is as long and comes later; whether or not char has a sign; -EIO is not reached |
| CramLookup.SoughtFound | os/linux-2.6/fs/cramfs/inode.c:464-503 | in a directory that is in order as far as a lookup needs it, or that is not flagged as sorted, the search does not end too early |
| CramLookup.OutOfOrder | os/linux-2.6/fs/cramfs/inode.c:464-503 | in a directory flagged as sorted that is not, a file that is there is not found |
| CramLookup.Walk | os/linux-2.6/fs/cramfs/inode.c:454-508 | one lookup after the other: a path leads to the inode of the entry that it leads to in the tree, with the same type, owner, size and contents |
| CramLookup.TreeWalks | pkg/cramfs/mkcramfs.c:388-393 | an image that gives back the tree made from sorted files meets what the searches need, in every directory |
| CramLookup.FitsFound | pkg/cramfs/mkcramfs.c:298-311 | a file whose name need not be cut is found under its name, whatever the longer names around it have become |
| CramLookup.CutExample | pkg/cramfs/mkcramfs.c:298-311 | names of 252 and 253 bytes that are out of order once cut, though the directory is flagged as sorted, and two names of 253 bytes that become the same |

## Findings

Where the code does not do what it is meant to, or what its comments say, the model does what the code does.

- **A match in front of a NUL is forgotten.** With as many classes as characters (`dfa.c:436-502`) transitions on NUL
  get a table of their own. For compressed tables the code for them (`gen.c:679-683`) does not note the accepting state
  in front of the NUL; the comment at `gen.c:733-741` says that it has been noted already, which holds for the other
  code only. If the longest match stands in front of that NUL, and the DFA jams behind it before another NUL or the
  end of the buffer comes, a shorter match is taken, and `yylex` does not come back if there is none. A scanner that is
  not interactive does so even if the DFA jams on the NUL itself. `Forgotten.Forgets` is the exact condition, given
  where the buffer was filled last (`Forgotten.FoundRight`, `Forgotten.BackUpRight`, `Forgotten.LastRight`), and
  `Forgotten.ForgetsMeans` says it in terms of the rules. `Yylex.PassAgain` shows that the scanner is in the same
  configuration as before, `Forgotten.EndlessExample` is a set of rules and a text, and `NulExample.NeverBack` takes
  them through the generator and `yylex`.
- **Template 32766 is taken for the jam state.** Its link is -32766, which is `JAMSTATE` (`flexdef.h:213`,
  `tblcmp.c:711-759`). `Compression.LastTemplate`: no entry that `mktemplate` writes for such a row determines the row.
  `Compression.Compressor.BldTbl` is right for every row until 32765 templates have been made.
- **The table of a full-speed scanner with one class is declared one entry too small** (`gen.c:132-223`):
  `FullSpeed.FullTables.GenCtbl` has the exact condition on the tables, `SpeedGenerate.BuildSpeedScanner` that on the
  rules, and `SpeedGenerate.OneClass` is the case without any.
- **`firstfree` skips free places** in the table of a full-speed scanner: it moves behind the place that
  `find_table_space` ends at (`tblcmp.c:406-407`), past pairs of free slots that did not suit that state only, although
  the comment calls it the first possible occurrence of such a pair (`tblcmp.c:339-341`).
  `FullSpeed.FullTables.FindTableSpace` has both: what the search finds, and where `firstfree` is then.
- **`mkentry` looks one past the row.** When the only transition of a state is the one on NUL that has gone to its own
  table, the number of transitions is 1 and not 0 (`dfa.c:701-705`), and `mkentry` takes `state[numecs + 1]` for it
  (`tblcmp.c:536-551`). `Compression.StrayEntry`: whatever lies there, the row stays what it is. It is even needed:
  without that entry an interactive scanner would stop in front of the NUL (`Matcher.JamBase`).
- **Flex gives up at 31000 NFA states**, although `MAXIMUM_MNS` is 31999 and the message says that there are at least
  32000 (`nfa.c:593-600`): the arrays would have to grow to 32000 entries. `Nfa.NfaBuilder.MkState`, `Rules.ReadRules`.
- **`mkeccl` reads one flag past the end** for a class of all 256 characters (`ecs.c:199`). `Ecs.MkEccl` holds whatever
  lies there.
- **Class 256 is stored in a `Char` as 0** by `ccl2ecl` (`ecs.c:35-65`), and 0 is read as the class of NUL; that is
  class 256 whenever it occurs (`Abstraction.BytesMapped`).
- **A directory of 2^24 bytes or more is written without complaint and cannot be read back** (`mkcramfs.c:497`):
  `CramMain.ReadsExactly`, `CramMain.WideDirectory`.
- **After the warning that the image is too large** the size is cut (`mkcramfs.c:848-858`), and building fails where the
  source would write past its mapping: `CramMain.MakeImage`, `CramMain.Overfull`.
- **A symbolic link without contents** is given 2^32 / blksize block pointers (`mkcramfs.c:613`), although the comment
  at `mkcramfs.c:604-606` says that no such entry comes there, and no room is reserved for it: `CramMain.EmptyLink`,
  and `CramFs.ReservingEnough`. This needs a `readlink` that accepts a size of 0 (`mkcramfs.c:349`); that of
  Linux answers EINVAL, and the link is skipped.
- **Directories are flagged as sorted and are not** (`mkcramfs.c:298-311`, `mkcramfs.c:391`): names are cut after they
  have been sorted. `CramLookup.CutExample` has a directory out of order, and two files that get the same name, of
  which the second cannot be found. In a directory out of order the kernel can miss a file (`CramLookup.OutOfOrder`);
  `CramLookup.MirrorsOrderly` is what remains of the order, and `CramLookup.SoughtFound` shows that it is enough.
- **`input()` at the end of a new buffer does not count what it reads** (`skel.c:979-1052`), and the scanner reports
  "end of buffer missed" later: `InputBuffer.CountMissed`, `InputBuffer.TwoInputs`; `InputBuffer.Buffer.Input` says
  exactly when. On a string buffer `input()` at the end leaves a position behind the end.
- **Never reached**: the fatal branch of `mkxtion`; the consistency checks of `epsclosure` and `symfollowset`; "could
  not create unique end-of-buffer state"; the growth of the arrays inside the loop of `mk1tbl` (`tblcmp.c:651-653`);
  "illegal offset" of `set_data_offset`; the block too large in `do_compress`.

## Left out

- Compression.Compressor.BldTbl: says nothing about rows that come after a 32766th template has misled the tables; the
  model stops there with `TooManyTemplates`, an error that flex does not have.
- Dfa.DfaBuilder.Ntod: stops likewise.
- Generate.BuildScanner: says of the rules what a 32766th template takes, not when exactly one is made. It always uses
  equivalence classes (`useecs`); -C and -Cm without them, case-insensitive scanners, REJECT, `yymore`, variable
  trailing context, `re/re` and rules for the end of a file are not modelled. Nor is the reuse of a class written before
  (PREVCCL), which saves space only.
- Yylex.ScanAll: with a NUL that meets a table for NUL it does not name the places where the buffer was filled, on
  which the tokens depend then.
- Yylex.NextToken: `yywrap` returns 1: no switch to another input, and the action of the rule is left to the caller.
- SpeedScanner.SpeedLexer.SpeedScan: texts without NUL, in one buffer; the end-of-buffer action of full-speed scanners,
  and the tables of -Cf scanners, are not modelled. SpeedGenerate.BuildSpeedScanner uses equivalence classes (-CFe).
- Compression.Compressor.CmpTmps: the template rows are those that were stored; templates are never empty, so that
  `gentabs` has no base of a template to replace.
- Packing.PackedTables, FullSpeed.FullTables and Nfa.NfaBuilder: the arrays that grow (`nxt`, `chk`, `base`, `def`,
  `tnxt`, `trans1`, `trans2` and others) are sequences in fields that are replaced at every write, so that these are
  not writes into one array that others may share. Allocation succeeds.
- Rules.RuleSet.MakeStarts: makes the start states before the classes are numbered, where flex makes them after; the
  new states have no labels.
- InputBuffer.Buffer.GetNextBuffer: a read gives some characters of the next chunk, or none at the end of the input.
  Interactive reads, line by line, are one way of cutting chunks. That a size already enlarged by an eighth can
  overflow an int as well is not modelled.
- CramLookup.Lookup: pages, locks and the cache of names in the kernel, and the inode that is made of what is found.
- CramData.DoCompress: the compressor is a function with an inverse that adds at most 26 bytes to a block.
- CramMain.MakeImage: where an image does not fit and has offsets that do not fit an inode, which of the two is found
  first; a file image that is included only takes room; the superblock, its checksum, names of volumes and the limits of
  `unsigned int` on totals are not part of this model.
- CramLayout.EntryImage: sizes of 24 bits and little-endian words, as in cramfs_fs.h, which is not part of this model.
- CramFs.WriteData and CramData.FindIdenticalFile: entries are values with numbers in place of pointers.
- The loop over siblings in `parse_directory` and `write_data` is recursion on the list of siblings.
- `udiv_qrnnd_preinv2gen` (it uses a name that is not its parameter), assembler variants and floating point in GMP.
- Text output of flex, statistics, option parsing, the rest of the repository.
