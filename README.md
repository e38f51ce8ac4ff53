# LL1parser in Dafny

This project models the LL(1) pipeline of the Java repository LL1parser and proves properties of the model. The pipeline has three parts:

1. **Grammar reading.** `Grammar` reads `<Head> ::= body` lines into three things: a start symbol, a set of one-character terminals (always including the end marker `$`) and a multimap from heads to bodies.
2. **FIRST and FOLLOW, and the table.** `Grammar` also answers FIRST and FOLLOW queries. `ParseTable.generate` uses them to write `T[head, t] = body` for every `t` in `firstOf(head, body)`.
3. **The parser.** `TableDrivenParser.parse` runs a stack-driven predictive parse over the input. Whitespace is removed from the input and `$` is appended.

The modules follow the program:

- `Symbols`: grammar symbols `T(c)` and `N(name)`, productions, and the split of a body into stack strings.
- `BnfText`: the string operations the line parser relies on (`trim`, `split("::=")`, `indexOf`, the whitespace regex). It also holds the quoted-terminal scan and the reading of a body text as symbols.
- `BnfScan`: `nonTerminalsInBNF`.
- `Grammars`: the grammar record and its queries.
- `GrammarLines`: `Grammar.parse`, the line reader.
- `FirstFollow`: `firstSetOf`, both `firstOf` overloads, and `followSetOf`/`followOf`.
- `ParseTables`: `ParseTable`, a class whose `table` field is a map. `generate` is proved against the function `Fill`.
- `Parsers`: `TableDrivenParser`, a class whose `stack` field is a sequence, top last. `parse` is proved against the step function `Step` and its iteration `Run`.
- `ParserSoundness`: what an accepted input means. It has a leftmost derivation from the start symbol.

Bodies are sequences of symbols, and the empty sequence is an epsilon body. The regular-expression tests of `followOf` become adjacency predicates over that sequence. Recursion the source does not bound (FIRST through leading non-terminals, FOLLOW through heads, the parse loop) takes a `fuel` argument. Running out of fuel gives `OutOfFuel` or `Undecided`. The FIRST and FOLLOW functions are proved equal to fuel-free reference definitions (`LeadsWith`, `InFollow`), both ways, and two bounds that both give an answer give the same one (`FirstOfFuelAgrees`, `FollowOfFuelAgrees`, and `RunSettles` for the parse loop).

The terminal-after branch of `followOf` (Grammar.java:146-149) misreads its body in the source; see "## Findings". The model's FOLLOW uses the corrected branch, which adds every terminal standing right after some `<x>`; the branch as written is `AsWrittenFollowChar`. The corrected FOLLOW does not stay inside the FOLLOW rows (`FollowOfSound`, `FollowOfComplete`, `TerminalAfterFollows`, `TerminalsAfter`). Through `firstOf(nt, "")` (Grammar.java:109-110) it reaches `FirstOfBody`, `FirstOfBodyTerminals` and `EpsilonBodyFirstIsFollow`. From there it reaches `generate` (ParseTable.java:24): `ParseTable.Generate`, `FillSucceeds`, `FillError`, `FillCellPresent`, `FillCellLast`, `FillCellStart` and `CellsFromProductions`. It then reaches the parser built over that table: `TableDrivenParser.Create`, `TableHolds` and `ParseSound`. Every one of these rows states the model with the corrected branch; "## Left out" says how the source differs.

## Model

| member | source | states |
|---|---|---|
| GrammarLines.ParseGrammar | src/main/java/Grammar.java:29-66 | The method that reads lines into a grammar returns exactly `GrammarOf(lines)`. That covers the start symbol of the first line, every line in order with the first failing line deciding the error, and `$` added to the terminals. |
| GrammarLines.ReadLine | src/main/java/Grammar.java:38-62 | One pass of the line loop agrees with `ParseLine`. It covers the split at `::=`, the bracketed-head check, `''` as an empty body, and otherwise the terminal scan added to the terminals so far and the body read as symbols. |
| GrammarLines.ScanTerminals | src/main/java/Grammar.java:55-61 | The character loop with its `i += 2` skip adds exactly `QuotedChars(body)` to the terminals. It gives None when a quote is the last character, where the source reads past the end. |
| BnfText.QuotedCharsAreTerminals | src/main/java/Grammar.java:55-61 | On a body text that reads as symbols, the quote scan finds exactly the terminals of those symbols. |
| BnfText.TokenizeToBnf | src/main/java/Grammar.java:47-62 | Reading the BNF text of a well-formed body gives that body back. |
| BnfText.ToBnfTokenize | src/main/java/Grammar.java:47-62 | Every body text that reads as symbols is the BNF text of the body read, and that body is well-formed. |
| BnfText.Trim | src/main/java/Grammar.java:41 | `trim()` returns a slice of its argument with only blank characters (code point at most U+0020) cut off at either end, and the slice neither starts nor ends with a blank. |
| BnfText.StripWhitespaceConcat | src/main/java/TableDrivenParser.java:16 | Removing `\\s+` works piece by piece: stripping a concatenation gives the two stripped pieces in order. |
| BnfText.StripWhitespaceChar | src/main/java/TableDrivenParser.java:16 | A single character is removed exactly when it is whitespace, and kept otherwise. |
| BnfText.StripAround | src/main/java/TableDrivenParser.java:16 | Whitespace on either side of a slice is removed with it: stripping the slice gives what stripping the whole text gives. |
| BnfText.StripTrimmed | src/main/java/TableDrivenParser.java:16 | When every blank of a text is whitespace, `trim()` before removing whitespace changes nothing. |
| GrammarLines.TerminalsOfGrammar | src/main/java/Grammar.java:55-65 | A grammar that was read has one production per line. `$` is a terminal. The terminals are exactly `$` and the characters quoted in the bodies. |
| GrammarLines.EpsilonBody | src/main/java/Grammar.java:50-54 | A production read from a line has an empty body exactly when the body text is `''` or empty. |
| GrammarLines.BadLineFails | src/main/java/Grammar.java:41-44 | A line that does not read (for example a head without brackets) makes the whole grammar fail. |
| GrammarLines.StartIsFirstHead | src/main/java/Grammar.java:34-35 | When the first line starts with its bracketed head and that head contains no `>`, the start symbol is the head of the first production. |
| GrammarLines.RuleOfLine | src/main/java/Grammar.java:37-63 | Production i of a grammar that was read is the one that line i gives. |
| GrammarLines.ReadLinesShape | src/main/java/Grammar.java:37-63 | A successful reading has one production per line in order. Its terminals are exactly those that the lines register. |
| GrammarLines.FailurePersists | src/main/java/Grammar.java:37-63 | Once a line fails, the lines after it do not change the outcome. |
| GrammarLines.ParseBody | src/main/java/Grammar.java:47-62 | A body that reads gives a production under the given head. A body that does not read fails only with a dangling-quote or malformed-body error for its own line. |
| GrammarLines.ProductionsPerLine | src/main/java/Grammar.java:217-219 | `numberOfProductions` of a grammar that was read is its number of lines, duplicates included. |
| GrammarLines.DeclaredHeads | src/main/java/Grammar.java:197-199 | `containsNonTerminal` of a grammar that was read holds exactly for the heads of its lines. |
| GrammarLines.TerminalSymbols | src/main/java/Grammar.java:193-195 | `containsTerminalSymbol` holds exactly for one-character strings that are `$` or a terminal of some body. |
| Grammars.IsEpsilonProduction | src/main/java/Grammar.java:213-215 | `isEpsilonProduction` holds exactly when the body's text is empty, which is exactly the empty body. The stored text is empty exactly for `''` or empty text (see `EpsilonBody`). |
| Grammars.IsStartSymbol | src/main/java/Grammar.java:205-211 | Fails with an unknown-symbol error exactly on an undeclared non-terminal. Otherwise it is true exactly for the start symbol. |
| Grammars.ProductionHeadsWith | src/main/java/Grammar.java:185-191 | Fails exactly on an undeclared non-terminal. Otherwise it returns the non-empty list `BodiesOf` gives for that head: one entry per production, duplicates included, in reading order. |
| Grammars.BodiesOf | src/main/java/Grammar.java:190 | The bodies listed for a head are exactly the bodies of its productions, and there are no more of them than productions. |
| Grammars.BodiesOfConcat | src/main/java/Grammar.java:190 | The list of a head's bodies is built production by production: the bodies from two runs of productions are those of the first run followed by those of the second. |
| Grammars.BodiesOfOne | src/main/java/Grammar.java:190 | A single production adds exactly one entry, its body, when it has the head, and nothing otherwise. So every production counts, duplicates included. |
| Grammars.FindRulesWithNonTerminalInBody | src/main/java/Grammar.java:160-175 | The loop keeps exactly the productions whose body contains `<x>` and whose head is not x, in reading order. |
| Grammars.RulesWithNonTerminalInBody | src/main/java/Grammar.java:160-175 | A production is in the result exactly when it is in the grammar, its body mentions `<x>` and its head differs from x. |
| BnfScan.NonTerminalsInBnf | src/main/java/Grammar.java:226-249 | The nested scan fails, with the text, exactly when some `<` has no later `>`. Otherwise it returns the names between each `<` and the next `>`, left to right. |
| BnfScan.NamesIn | src/main/java/Grammar.java:226-249 | No name the scan collects contains `>`. |
| BnfScan.UnclosedFails | src/main/java/Grammar.java:240-242 | The scan fails exactly when some `<` is never closed. |
| BnfScan.NamesOfBody | src/main/java/Grammar.java:226-249 | On the text of a well-formed body with no `<` terminal, the scan finds exactly the body's non-terminals, in order. |
| BnfScan.ScanFindsNames | src/test/java/GrammarTest.java:98-102 | `'+'<B><C>` gives the names B and C, in that order. |
| BnfScan.ScanMissesBracket | src/test/java/GrammarTest.java:92-96 | `'+'<A><B><C` has an unclosed `<`, and the scan fails. |
| FirstFollow.FirstSetOfSound | src/main/java/Grammar.java:115-125 | Every character `firstSetOf(nt)` adds leads some derivation from nt through leading non-terminals. That includes the terminal of a leading-terminal body, and the closure of a leading non-terminal. Empty bodies add nothing, so EPSILON never appears. |
| FirstFollow.FirstSetOfComplete | src/main/java/Grammar.java:115-125 | Whenever `firstSetOf(nt)` finishes, it holds every terminal that leads a derivation from nt. |
| FirstFollow.FirstOf | src/main/java/Grammar.java:76-95 | `firstOf(nt)` fails with an unknown-symbol error on an undeclared nt. Otherwise EPSILON is in the result exactly when nt has an empty body. |
| FirstFollow.FirstOfTerminals | src/main/java/Grammar.java:76-95 | The terminals in `firstOf(nt)` are exactly those that lead some derivation from nt. |
| FirstFollow.FirstOfBody | src/main/java/Grammar.java:97-113 | `firstOf(nt, body)` fails on an undeclared nt. For a body that starts with a terminal, it is exactly that terminal. For a body that starts with `<M>`, it is exactly `firstOf(M)`, failure included. For an empty body, it fails exactly when `followSetOf(nt)` fails. |
| FirstFollow.FirstOfBodyTerminals | src/main/java/Grammar.java:97-113 | The terminals in `firstOf(nt, body)` are: the leading terminal alone; for a leading `<M>`, exactly those that lead a derivation from M; for an empty body, exactly those in FOLLOW(nt). |
| FirstFollow.EpsilonBodyFirstIsFollow | src/main/java/Grammar.java:109-110 | For an empty body, `firstOf(nt, "")` is `followSetOf(nt)`. |
| FirstFollow.FirstOfBodyEpsilon | src/main/java/Grammar.java:97-113 | EPSILON is in `firstOf(nt, body)` exactly when the body starts with a non-terminal that has an empty body. |
| FirstFollow.FollowOf | src/main/java/Grammar.java:127-135 | `followSetOf(x)` fails with an unknown-symbol error on an undeclared x, as its first call, `isStartSymbol(x)` (Grammar.java:205-211), throws. |
| FirstFollow.FollowOfSound | src/main/java/Grammar.java:133-158 | Everything `followSetOf(x)` returns is justified by one of the branches: `$` for the start symbol, `$` for a body of the start symbol ending in `<x>`, a terminal right after `<x>`, or FOLLOW of the head inherited. |
| FirstFollow.FollowOfComplete | src/main/java/Grammar.java:133-158 | Whenever `followSetOf(x)` finishes, it holds everything those branches justify, at any depth of inheritance. |
| FirstFollow.FirstOfFuelAgrees | src/main/java/Grammar.java:76-95 | Two bounds under which `firstOf(nt)` finishes give the same set. |
| FirstFollow.FollowOfFuelAgrees | src/main/java/Grammar.java:133-158 | Two bounds under which `followSetOf(x)` finishes give the same set. |
| FirstFollow.EndMarkerFollows | src/main/java/Grammar.java:134-145 | `$` is in FOLLOW(x) when x is the start symbol, and when `<x>` ends a body of the start symbol. |
| FirstFollow.TerminalAfterFollows | src/main/java/Grammar.java:146-149 | A terminal right after `<x>` in another head's body is in FOLLOW(x), unless that body ends with `<x>` under the start symbol. |
| FirstFollow.HeadFollowInherited | src/main/java/Grammar.java:150-153 | When only the inheritance branch applies to a body that mentions `<x>`, all of FOLLOW(head) is in FOLLOW(x). |
| FirstFollow.TerminalsAfter | src/main/java/Grammar.java:146-149 | The corrected branch holds exactly the terminals that stand immediately after some `<x>`. It is non-empty exactly when the branch's pattern matches. |
| FirstFollow.LastIndexOf | src/main/java/Grammar.java:148 | `lastIndexOf`: a position of `<x>` with no `<x>` after it. |
| FirstFollow.LastOccurrenceMisread | src/main/java/Grammar.java:146-149 | On `<X>'+'<X><Y>` the branch as written adds `Y`, which is not a terminal. On `<X>'+'<X>` it throws. The corrected branch adds `+` in both cases. On `<X>'+'<X>'-'` the branch as written adds only `-`, and the corrected branch adds `+` and `-`. |
| FirstFollow.CorrectedAgreesOnSingleOccurrence | src/main/java/Grammar.java:146-149 | With a single `<x>` followed by a terminal, the branch as written and the corrected branch add the same terminal. |
| ParseTables.ParseTable.Generate | src/main/java/ParseTable.java:15-36 | The table and the error after `generate` are exactly `Fill` over the productions, from the old table. |
| ParseTables.ParseTable.PutRule | src/main/java/ParseTable.java:29-34 | The inner loop writes `table[head, t] = body` for every t in the FIRST set and changes no other cell. |
| ParseTables.ParseTable.RuleToApply | src/main/java/ParseTable.java:38-44 | The lookup is present with the cell's body exactly when the cell exists, and it reads the table without changing it. |
| ParseTables.Lookup | src/main/java/ParseTable.java:40-43 | The result is present exactly when the cell exists, and it then holds the cell's value. |
| ParseTables.PutAll | src/main/java/ParseTable.java:29-34 | After writing one production, a cell exists exactly when it existed before or is (head, t) with t in the FIRST set. The cells written hold the body, and the others keep their value. |
| ParseTables.FillSucceeds | src/main/java/ParseTable.java:17-35 | `generate` completes exactly when every production's FIRST set can be computed. |
| ParseTables.FillError | src/main/java/ParseTable.java:24 | A failing `generate` reports the error of the first production whose FIRST set fails, such as an unknown non-terminal. |
| ParseTables.FillCellPresent | src/main/java/ParseTable.java:17-34 | After a complete `generate`, cell (h, t) exists exactly when it existed before or some production of h has t in its FIRST set. |
| ParseTables.FillCellLast | src/main/java/ParseTable.java:33 | A cell that several productions select holds the body of the last of them, silently overwriting the others. |
| ParseTables.FillCellStart | src/main/java/ParseTable.java:29-34 | A cell no production selects keeps its old value. |
| ParseTables.CellsFromProductions | src/main/java/ParseTable.java:29-34 | Every cell written from an empty table holds a production of its head, and its lookahead is in that production's FIRST set. This holds whether or not `generate` completed. |
| Parsers.Normalize | src/main/java/TableDrivenParser.java:16-17 | The working input ends with `$`, and nothing before that `$` is whitespace. |
| Parsers.NormalizeDropsWhitespace | src/main/java/TableDrivenParser.java:16-17 | When every blank character of the argument is whitespace, the working input is the argument with its whitespace removed, in order, followed by `$`: trimming first changes nothing. |
| Parsers.Step | src/main/java/TableDrivenParser.java:29-57 | A round accepts exactly when the top is `$` and the current character is `$`. A round that goes on keeps the input position within bounds and `$` at the bottom of the stack. The position moves only by one, on a terminal top that matches a character other than `$`. |
| Parsers.Run | src/main/java/TableDrivenParser.java:24-62 | The loop stops in a configuration within bounds. An accepting stop has `$` on top facing `$` in the input. |
| Parsers.RunSettles | src/main/java/TableDrivenParser.java:24-62 | Once the loop reaches a verdict within some number of rounds, every larger budget gives the same verdict and final configuration. |
| Parsers.TableDrivenParser.Parse | src/main/java/TableDrivenParser.java:15-66 | `parse` pushes `$` and then the start symbol on top of the old stack, runs the loop, and returns `Run`'s verdict. After an acceptance the stack is empty. After a SyntaxException or an exhausted budget, the old stack remains with the parser's leftovers on top. |
| Parsers.TableDrivenParser.Round | src/main/java/TableDrivenParser.java:29-60 | One pass of the loop body makes the move `Step` prescribes. It leaves the stack below the parser's part untouched, and changes nothing on accept or throw. |
| Parsers.TableDrivenParser.Expand | src/main/java/TableDrivenParser.java:40-53 | The non-terminal is popped and the body is pushed so that its first symbol is on top. An epsilon body pushes nothing. |
| Parsers.TableDrivenParser.PushReversed | src/main/java/TableDrivenParser.java:48-52 | The reverse-iterator loop pushes the symbols from last to first. |
| Parsers.TableDrivenParser.Create | src/main/java/TableDrivenParser.java:8-12 | The constructor fails exactly when `generate` fails, with its error. Otherwise it yields a fresh parser with an empty stack over the table `generate` fills. |
| Symbols.FromBnf | src/main/java/TableDrivenParser.java:47 | `fromBNF` gives one stack string per body symbol, in order. |
| Symbols.ReverseCons | src/main/java/TableDrivenParser.java:48-52 | Pushing one more symbol below the rest in reverse order leaves it last. |
| ParserSoundness.InitialDerived | src/main/java/TableDrivenParser.java:20-21 | The stack as `parse` sets it up, the start symbol over `$`, holds the derivation invariant. |
| ParserSoundness.MatchKeeps | src/main/java/TableDrivenParser.java:33-36 | Matching a terminal keeps the invariant: the text read plus the symbols expected derive from the start symbol. |
| ParserSoundness.ExpandKeeps | src/main/java/TableDrivenParser.java:40-53 | Expanding a non-terminal by one of its productions keeps the invariant with one more leftmost step. |
| ParserSoundness.PushKeepsMarker | src/main/java/TableDrivenParser.java:48-52 | Pushing a body never puts a second `$` on the stack. |
| ParserSoundness.StepKeeps | src/main/java/TableDrivenParser.java:29-57 | For a grammar whose symbols can be told apart on the stack (`Distinguishable`), every round that goes on keeps the invariant. This holds whatever the table, as long as each cell holds a production of its head. |
| ParserSoundness.RunSound | src/main/java/TableDrivenParser.java:24-62 | For a `Distinguishable` grammar, an accepting run stops on the input's `$`, and the text before it has a leftmost derivation from the start symbol. |
| ParserSoundness.TableHolds | src/main/java/ParseTable.java:29-34 | Every cell that `generate` fills holds a production of its head. |
| ParserSoundness.AcceptedSound | src/main/java/TableDrivenParser.java:24-62 | For a `Distinguishable` grammar and any table whose cells hold productions of their heads, an accepted text derives from the start symbol up to its first `$`, and all of it does when it holds no `$`. |
| ParserSoundness.ParseSound | src/main/java/TableDrivenParser.java:15-66 | For a `Distinguishable` grammar, when `parse` over the table `generate` built accepts, the text it worked on derives from the start symbol. This covers the text up to its first `$`, and all of the text when it holds none. |
| ParserSoundness.UnknownTopSpins | src/main/java/TableDrivenParser.java:24-62 | With a stack top that is neither a terminal nor a non-terminal, the loop goes round unchanged, so no budget brings a verdict. |

## Left out

- The file handling of the `Grammar` constructor (Grammar.java:21-30) is not modelled. The model reads a sequence of lines.
- `Main.java`, the console output (Grammar.java:155, ParseTable.java:30-32) and the `SyntaxException` class are left out. The model does no I/O, and the two exception messages are the `Reason` datatype.
- `Grammar.fromBNF` is called at TableDrivenParser.java:47, but its source is not part of this model. `Symbols.FromBnf` takes it to split a body into its symbols, in order.
- The grammar file `language.bnf` used by the tests is not part of this model. So the concrete FIRST, FOLLOW and table figures the tests check, and the acceptance of `"0"`, are not restated. The `nonTerminalsInBNF` test texts are restated (`ScanFindsNames`, `ScanMissesBracket`).
- Guava's multimaps iterate keys in hash order. The model iterates in reading order. Table cells (h, t) are written only by productions of h, and bodies of one head keep reading order, so a complete table is the same. When several productions fail, which error `generate` reports depends on the hash order, and so does the part of the table filled before the failure. The model reports the first failure in reading order.
- GrammarLines.ParseGrammar: a body text that is not a sequence of `'c'` and `<name>` symbols (stray characters between symbols, or a name containing `<`, `>` or a quote) is rejected as `MalformedBody`. The source stores such text as it is, and its string tests then act on it unpredictably.
- A body text that starts with neither a quote nor `<` and is not empty makes `firstOf(nt, body)` return an empty set in the source. Such bodies are rejected when read, so the case does not arise in the model.
- The `fuel` parameters of FIRST, FOLLOW, `generate` and `parse` bound recursion that the source does not bound. `OutOfFuel` and `Undecided` mean that the bound given was too small for this input, or that the source never finishes (or exhausts the Java stack) on it; the model does not tell the two apart for a single bound. An answer, once reached, is the same under every larger bound. The model does not capture a stack overflow as such.
- FirstFollow.FollowOf: the source builds its regular expressions by splicing the name of x in unquoted (Grammar.java:143-151). A name such as `a+b` or `a.b` then acts as a pattern, and a name such as `(x` makes the source throw PatternSyntaxException. Its `.` also fails to match line terminators such as `\r`. The model matches symbols exactly and does not capture these effects of the regex text.
- Parsers.TableDrivenParser.Parse: the stack is cleared only on acceptance, as the code does. A SyntaxException leaves the old stack with the parser's leftovers on top, and the next call pushes above them. This follows the code rather than a description that has the stack cleared after every parse. `Run` shows that the leftovers below the parser's part never influence a run.
- ParserSoundness.ParseSound: it is stated over the text `parse` builds before appending `$` (trimmed, whitespace removed). It is not stated over the argument itself; `Parse`'s contract ties the two through `Normalize`. A `$` typed inside the input can be accepted early: the derivation then covers the text up to that `$`.
- Parsers.TableDrivenParser.Round, Expand and PushReversed, and ParseTables.ParseTable.PutRule, are pieces of the single loop bodies of `parse` and `generate`, written as methods of their own.
- The 32-bit width of the Java `int` index is not modelled. Input length is unbounded.
- The corrected FOLLOW branch changes what `firstOf(nt, "")`, `generate` and the parser constructor do on grammars where an `<X>` occurs twice in a body after a terminal (see "## Findings"). With `<S> ::= <A>`, `<A> ::= <X>'+'<X>`, `<X> ::= ''`, the source's constructor throws StringIndexOutOfBoundsException, while `TableDrivenParser.Create` succeeds and writes cell (X, `+`). With `<A> ::= <X>'+'<X><Y>` instead, the source writes cell (X, "Y") and no (X, "+"). With `<A> ::= <X>'+'<X>'-'`, the source has no (X, "+") cell, so an input needing X → ε before `+` gets "Unable to expand" in the source, while the model accepts it. The table and parser rows state the corrected behaviour.
- ParserSoundness.ParseSound, RunSound, AcceptedSound and StepKeeps hold only for `Distinguishable` grammars. Those are grammars whose start symbol and body non-terminal names are not one-character terminal strings, and whose body terminals are declared and are not `$`. The source itself is unsound on other grammars, because its stack holds plain strings. With `<S> ::= 'a''$'` it accepts "a": after `a` is matched, the body's `$` is on top facing the input's `$` (TableDrivenParser.java:29-31), yet "a" does not derive from S. With `<S> ::= 'a'<a>` and `<a> ::= 'b'`, the pushed name `a` is taken for a terminal (TableDrivenParser.java:32). The model's `Step` reproduces this behaviour; soundness is claimed only under the hypothesis.
- GrammarLines.ParseGrammar: head names are not restricted, as in the source. A head such as `a><b` (from the line `<a><b> ::= 'c'`) can never match the model's symbol test, because a body `<a><b>` reads as the two symbols `a` and `b`. The source's textual `body.contains("<a><b>")` (Grammar.java:170) matches that body, so `findRules` and FOLLOW differ for such heads. A `>` inside a head also separates the start symbol from the first head: for the first line `<a>b> ::= 'c'`, the source and the model both take the start symbol `a` (everything up to the first `>`, Grammar.java:35), while the production's head is `a>b`. GrammarLines.StartIsFirstHead therefore assumes a head without `>`.
- GrammarLines.ScanTerminals: a Dafny `char` is a Unicode scalar value, while a Java `char` is one UTF-16 code unit. A quoted character outside the Basic Multilingual Plane, such as in the body `'😀'`, is one terminal in the model. In the source it is two code units: the scan at Grammar.java:55-61 registers the high half of the surrogate pair, then takes the closing quote for an opening one and reads past the end of the array (ArrayIndexOutOfBoundsException). Input text is modelled as a sequence of Unicode scalars throughout.

## Findings

| source | as written | input that shows it | evidently intended | confidence | as-written member | corrected member |
|---|---|---|---|---|---|---|
| src/main/java/Grammar.java:146-149 | The branch fires when some `<X>` is followed by a quoted terminal. It then reads the character two positions after the *last* `<X>`. | Body `<X>'+'<X><Y>` adds `Y`, the first letter of a non-terminal's name, to FOLLOW(X). Body `<X>'+'<X>` throws StringIndexOutOfBoundsException. Body `<X>'+'<X>'-'` adds only `-`, though `+` also follows an `<X>`. | Add every terminal that stands right after some `<X>` (`+` in the first two bodies, `+` and `-` in the third). | high; not executed | FirstFollow.LastOccurrenceMisread | FirstFollow.TerminalsAfter |
