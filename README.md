# libannalee network encodings in Dafny

libannalee's encodings turn a genome into a neural network. This project models them.
Each encoding is a gene of the genome, and it works in two steps:
- `addPrivateGenes` declares the genes it reads;
- `execute` turns their values into an `ANNetwork`, which it attaches to the genetic message as its "brainplan".

The model covers these encodings:
- the `ANNEncoding` base and its parameters (`src/anngenes.cc`);
- the direct bitmap encodings:
  - Miller's unit/weight bitmap (`src/puredirect.cc`);
  - the layered, direct and pure-layered variants (`src/layered.cc`, `src/direct.cc`, `src/purelayered.cc`);
- Kitano's matrix-rewriting grammar (`src/kitano.cc`);
- Nolfi's cell space (`src/nolfi.cc`, `src/nolfinet.cc`):
  - cells that grow axons, are typed, indexed and deduplicated, and are connected by proximity;
  - the variant with separate input and output layers (`src/extnolfi.cc`);
- Cangelosi's cell division and migration on top of Nolfi's space (`src/cangelosi.cc`);
- the parameters and genome setup of the NEAT encoding (`src/neat.cc`).

How the model represents the program:
- **Gene names** are typed: each encoding has a datatype with one constructor per name pattern. `"R%d-%d"` is `R(i, j)`, `"WX%d-%d"` is `WX(i, j)`, and so on.
- **A genome** is a map from gene names to binary, integer or real values.
- **Gene declarations** are a sequence of `Decl`s, and `Conforms` says when a genome holds every declared gene within its range.
- **The decoded network** is a value with one enabled flag per unit and a list of connections. `enable` and `connect` are functions on that value.
- **Encoding objects** are classes. Their constructors, copy constructors, `copy`, `addPrivateGenes` and `execute` are constructors and methods.
- **Proofs.** Each `execute` is proved against a specification function of the genome. The properties the original code promises are then proved about that function: the size and shape of the network, which connections exist, and that the network is feed-forward with no self-loops and no duplicate connections. For Nolfi's and Cangelosi's cell spaces no duplicates is proved for the cells as indexed, each with its own unit.
- **Numbers.** Parameters are strings, so C++'s `toInt` and `toDouble` are written out as functions. C++'s truncating `%` and `int()` are written out where the code uses them.

Some places where the code and its documentation disagree are proved as lemmas about the code as written:
- Kitano's edge rule does not look at the target unit (`KitanoNet.TargetNotChecked`).
- Cangelosi's space grows into 2^c cells after c cycles (`Cangelosi.DevelopedCells`). The mother sits at the origin (`Cangelosi.CangelosiNet.MakeMother`), although the comment in `include/annalee/cangelosinet.h` puts it in the middle.
- The output border of Nolfi's space is 0.7 (`NolfiNets.NolfiNet.constructor`), although the field comment in `include/annalee/nolfinet.h` says 0.75.
- Miller's input pruning is off when its parameter is missing (`Miller.PruneInputsAbsent`).
- The layered and direct encodings prune weights with `"W%d-%d"` genes that they never declare (`Layered.PrunedWeightsUndeclared`, `Direct.PrunedWeightsUndeclared`).
- The input side and the output side share those genes (`DirectNet.PrunedWeightsShared`).

The model follows the code in each of these cases.

## Model

| member | source | states |
|---|---|---|
| AnnGenes.Construct | src/anngenes.cc:60-70 | the sizes are the `toInt` of "inputs", "outputs" and "ANNEncoding.maxHidden"; passthrough pruning is on iff "ANNEncoding.prunePassthroughs" reads non-zero; requires the two parameters the ASSERT demands |
| AnnGenes.CheckBounds | src/anngenes.cc:89-98 | a checked encoding has at least one input and one output, no negative hidden count, and fewer than 101998 units in all |
| AnnGenes.CheckRejects | src/anngenes.cc:89-98 | check refuses every size outside its ranges: inputs and outputs outside 1..999, hidden units outside 0..99999 |
| Params.GetOrDefault | src/kitano.cc:46-48 | the parameter's value when present, otherwise the default |
| Params.GetAbsent | src/anngenes.cc:66-69 | reading a parameter is reading it with the empty default, so an absent parameter reads as 0 with both `toInt` and `toDouble` |
| Params.DigitRun | src/anngenes.cc:66-69 | the digit run at the head of a string that `toInt` reads ends at the first non-digit |
| Params.DigitRunPrefix | src/anngenes.cc:66-69 | a run of digits followed by a non-digit (or nothing) is read up to its end and no further |
| Params.UnsignedPrefix | src/anngenes.cc:66-69 | the magnitude read at the head of such a string is the number the digit run spells |
| Params.AtoiPrefix | src/anngenes.cc:66-69 | `toInt` of a digit run followed by anything that is not a digit is that run's number, negated after a leading '-' and unchanged after a leading '+' |
| Params.Split | src/layered.cc:53-58 | `split` gives at least one piece and no piece holds the separator |
| Params.SplitJoin | src/layered.cc:53-58 | `split` loses nothing: joining the pieces with the separator gives back the string |
| Params.SplitCount | src/layered.cc:53-58 | `split` gives one piece more than there are separators, and no piece holds a separator |
| Params.OccurrencesConcat | src/layered.cc:55 | the separators of a concatenation are those of its two parts |
| Params.AtoiOneDigit | src/anngenes.cc:66-69 | `toInt` of a one-digit parameter is its digit |
| Params.AtoiTwoDigits | src/anngenes.cc:66-69 | `toInt` of a two-digit parameter is its number |
| Params.AtofExamples | src/nolfi.cc:38-42 | `toDouble` reads "0.5" as 0.5 and the words "auto-network" and "auto-cell" as 0 |
| Networks.Fresh | src/puredirect.cc:133 | a new network of n units has every unit enabled and no connections |
| Networks.Enable | src/puredirect.cc:144-149 | `enable` changes the flag of one unit only and no connection |
| Networks.Connect | src/puredirect.cc:176-182 | `connect` appends exactly one connection and enables nothing |
| Common.Rem | src/nolfinet.cc:548-557 | C++'s `%` by a positive divisor: a remainder in 0..b-1 for a non-negative dividend and in -(b-1)..0 for a negative one |
| Common.QuotRem | src/nolfinet.cc:548-557 | the truncating remainder is what the truncating quotient leaves: a = (a / b) * b + a % b |
| Genes.Keys | src/kitano.cc:65-75 | the names of the declarations, one per declaration, in order |
| Genes.KeysAppend | src/kitano.cc:65-75 | the names of declarations added one after another are the names of each part, in order |
| Genes.Held | src/nolfinet.cc:232-250 | a declared gene of a conforming genome is present with a value of its kind and range |
| Genes.BinaryHeld | src/puredirect.cc:144-158 | a gene declared only as binary in a conforming genome holds a bit |
| Genes.ConformsPart | src/nolfi.cc:67-77 | a genome conforming to all declarations conforms to every part of them |
| Matrices.MatrixExt | src/kitano.cc:165-204 | two matrices of one shape that agree at every entry are equal |
| Matrices.Contents | src/kitano.cc:82 | the matrix a `PackTable` holds has its shape and its entries |
| Matrices.ContentsEqual | src/kitano.cc:165-204 | a table that agrees with a matrix everywhere holds that matrix |
| Matrices.Ones | src/kitano.cc:123-128 | the number of pairs whose entry is 1 is at most the number of pairs |
| Matrices.OnesAppend | src/kitano.cc:123-128 | one more pair adds one to the count exactly when its entry is 1 |
| Matrices.OnesConcat | src/kitano.cc:123-128 | the ones of two lists of pairs add up |
| Matrices.StatPairsMembers | src/kitano.cc:123-128 | the statistic ranges over exactly the pairs (i, j) of the counted rows, with j past the diagonal for non-input rows, each pair once |
| Matrices.RowPairsDistinct | src/kitano.cc:125-127 | row i of the statistic is exactly the pairs (i, j) for the columns of its range, each once |
| Matrices.RowPairsLength | src/kitano.cc:125-127 | row i of the statistic has one pair per column of its range |
| Matrices.RowCounted | src/kitano.cc:123-128 | counting one more row adds that row's pairs to totconns and that row's ones to conns |
| Matrices.Statistics | src/kitano.cc:123-128 | totconns counts the pairs of rows 0..n-outputs-1 the statistic ranges over, and conns counts the ones among them, so 0 <= conns <= totconns |
| Matrices.CountRow | src/kitano.cc:125-127 | the inner loop adds one to totconns per pair of row i and one to conns per entry 1 |
| KitanoGrammar.InitialRules | src/kitano.cc:82-92 | the table before reading the genome has 16+N rows of four entries |
| KitanoGrammar.Lhs | src/kitano.cc:95-105 | the left-hand side of every rule `execute` reads, the fixed one of rule 16 included, is a nonterminal 16..15+N, so it names a row of the table |
| KitanoGrammar.RuleRow | src/kitano.cc:97-107 | a rule's right-hand side is four symbols of the alphabet 0..15+N |
| KitanoGrammar.ReadRules | src/kitano.cc:95-109 | reading rules 16..k-1 keeps the table's shape |
| KitanoGrammar.LastWriter | src/kitano.cc:95-109 | the last rule read so far whose left-hand side is r, if there is one |
| KitanoGrammar.ReadRulesRow | src/kitano.cc:95-109 | after reading, row r is the right-hand side of the last rule that wrote r, and its initial row if no rule did: a later rule overwrites an earlier one |
| KitanoGrammar.RulesTable | src/kitano.cc:82-109 | the final table is a rule table: terminal rows hold their bit patterns; rows no rule wrote stay void; the others hold their last writer's right-hand side; row 16 is always written |
| KitanoGrammar.NoTerminalWriter | src/kitano.cc:95-109 | no rule writes a terminal row |
| KitanoGrammar.FirstRuleWritten | src/kitano.cc:98-99 | once the first rule is read, nonterminal 16 has a writer |
| KitanoGrammar.TerminalPattern | src/kitano.cc:85-87 | terminal i's four entries spell i in binary, least significant bit first, with FINALONE for 1 and FINALZERO for 0 |
| KitanoGrammar.RuleGene | src/kitano.cc:97-107 | each gene read is an integer gene: "R<i>-0" is the left-hand side and "R<i>-<j>" is entry j-1 of the right-hand side |
| KitanoGrammar.BuildRules | src/kitano.cc:82-109 | the loops of `execute` fill a fresh (16+N) x 4 table with exactly the specified rule table |
| KitanoGrammar.ReadGenomeRules | src/kitano.cc:96-109 | the loop reading rules 16..15+N in order over the terminal and void rows yields exactly the specified rule table |
| KitanoGrammar.SetDefaultRules | src/kitano.cc:84-92 | after the terminal and void loops the table holds the initial rules |
| KitanoGrammar.SetTerminalRules | src/kitano.cc:85-87 | terminal rows get their bit patterns and no nonterminal row changes |
| KitanoGrammar.SetVoidRules | src/kitano.cc:90-92 | nonterminal rows become VOIDAREA and no terminal row changes |
| KitanoGrammar.ReadRule | src/kitano.cc:96-108 | reading one rule takes the table for rules 16..i-1 to the table for rules 16..i |
| KitanoGrammar.Expand | src/kitano.cc:172-182 | one rewriting step doubles both sides and keeps every entry a symbol of the table |
| KitanoGrammar.ExpandBlocks | src/kitano.cc:172-182 | entry (i, j) becomes the 2x2 block at (2i, 2j), laid out as the code does: entries 0 and 1 go down the first column, 2 and 3 down the second |
| KitanoGrammar.ExpandInherits | src/kitano.cc:174-176 | a negative (terminal or void) entry is copied to all four entries of its block |
| KitanoGrammar.Resolve | src/kitano.cc:191-200 | the last level leaves only 0, 1, VOIDAREA and UNRESOLVED |
| KitanoGrammar.ScalePow | src/kitano.cc:185-188 | l levels, at least one, multiply a side by 2^l |
| KitanoGrammar.ScaleAdd | src/kitano.cc:185-188 | the scaling of a sum of sides is the sum of the scalings |
| KitanoGrammar.Decode | src/kitano.cc:165-204 | `decodeMatrix` performs max(l, 1) levels, scales each side accordingly, and leaves only resolved values |
| KitanoGrammar.Axiom | src/kitano.cc:116-117 | the start matrix is 1x1 and holds the first nonterminal, 16 |
| KitanoGrammar.DecodeAxiomSize | src/kitano.cc:116-120 | decoding the axiom gives a 2^L x 2^L matrix, where L = max(rewrites, 1) |
| KitanoGrammar.DecodeInherits | src/kitano.cc:172-200 | a negative entry resolves into a whole block of descendants that all hold its final value |
| KitanoGrammar.InheritStep | src/kitano.cc:172-188 | four equal negative quarters decode into one block of their final value |
| KitanoGrammar.QuarterBlocks | src/kitano.cc:172-182 | four h-blocks of one value make the 2h-block that holds them |
| KitanoGrammar.DecodeMatrix | src/kitano.cc:165-204 | the recursive method returns a table holding exactly the specified decoded matrix |
| KitanoGrammar.ExpandTable | src/kitano.cc:168-182 | one level fills a fresh table of twice the size with the specified expansion |
| KitanoGrammar.ExpandRow | src/kitano.cc:172-182 | row i of the source fills rows 2i and 2i+1 of the new table |
| KitanoGrammar.WriteBlock | src/kitano.cc:174-181 | the four entries a symbol rewrites to are written, and no other entry changes |
| KitanoGrammar.ResolveTable | src/kitano.cc:191-200 | resolving in place leaves the table holding the specified resolution of its old contents |
| KitanoNet.ForceOutputs | src/kitano.cc:216-217 | the diagonal of every unit from the first output on becomes 1, and nothing else changes |
| KitanoNet.RowPicture | src/kitano.cc:219-233 | one picture character per entry, the glyph of that entry |
| KitanoNet.PictureLength | src/kitano.cc:219-233 | the picture of an n x n matrix has n*(n+1) characters |
| KitanoNet.PicturePrefix | src/kitano.cc:219-233 | drawing more rows only extends the picture |
| KitanoNet.PictureAt | src/kitano.cc:219-233 | character j of line i is the glyph of entry (i, j), and each line ends with a newline |
| KitanoNet.MatrixNet | src/kitano.cc:246-253 | the network has one unit per row, and unit i is enabled iff its diagonal entry is 1 |
| KitanoNet.NetEdgesMembers | src/kitano.cc:246-253 | i -> j is a connection iff i's diagonal is 1, j is past i and no input, and entry (i, j) is 1; each connection occurs once |
| KitanoNet.RowEdgesDistinct | src/kitano.cc:248-252 | the connections of unit i go to each later column of entry 1 in the range, once each |
| KitanoNet.MatrixNetShape | src/kitano.cc:246-253 | the network's connections join units of the network, go forward, have no self-loops or duplicates, start at enabled units and never end at an input |
| KitanoNet.OutputsEnabled | src/kitano.cc:216-217 | after forcing the diagonal, every output unit is enabled |
| KitanoNet.TargetNotChecked | src/kitano.cc:246-253 | a connection can end at a disabled unit: the edge rule never looks at the target's diagonal |
| KitanoNet.MakeNet | src/kitano.cc:206-258 | `makeNet` on a copy of the matrix gives the picture and the network of the forced matrix; requires the sizes its asserts demand |
| KitanoNet.MadeNetShape | src/kitano.cc:206-258 | the network `makeNet` builds has one unit per row, every output enabled, connections within range, forward, with no duplicates, from enabled units to non-inputs |
| KitanoNet.ForceDiagonal | src/kitano.cc:216-217 | the loop computes the forced matrix |
| KitanoNet.DrawPicture | src/kitano.cc:219-233 | the loops compute the whole picture |
| KitanoNet.ConnectUnits | src/kitano.cc:246-253 | the loop over the units computes the specified network |
| KitanoNet.ConnectRow | src/kitano.cc:248-252 | one enabled unit's connections are appended in column order, and no flag changes |
| Kitano.RuleDecl | src/kitano.cc:71-73 | each rule declares five genes |
| Kitano.RuleDeclsKeys | src/kitano.cc:65-75 | the rules 0..k-1 declare exactly the genes "R<i>-<j>" for i < k and j < 5, 5k genes, each once |
| Kitano.RuleDeclsStep | src/kitano.cc:68-74 | the rules are declared one by one, each rule's five genes in part order |
| Kitano.RuleDeclsMembers | src/kitano.cc:65-75 | the declared names are exactly "R<i>-<j>" for i < k and j < 5 |
| Kitano.RuleDeclsLength | src/kitano.cc:65-75 | k rules declare 5k genes |
| Kitano.RuleDeclsDistinct | src/kitano.cc:65-75 | no gene is declared twice |
| Kitano.RuleDeclIn | src/kitano.cc:68-74 | the five declarations of each rule i < k are among the declarations of rules 0..k-1 |
| Kitano.ConformingRuleGenes | src/kitano.cc:65-110 | a genome conforming to the declarations of at least 16 + nonterminals rules holds every rule gene `execute` reads, with nonterminal left-hand sides and right-hand sides in the table |
| Kitano.LastNonterminalNeverNamed | src/kitano.cc:72-73 | as declared, a right-hand side gene ranges below 15 + nonterminals, so it never names the last nonterminal |
| Kitano.SelfRuleUndeclared | src/kitano.cc:72-73 | the rule 16 -> 16 16 16 16 with one nonterminal is readable by `execute`, yet no conforming genome holds it |
| Kitano.CorrectedRuleDeclExact | src/kitano.cc:71-73 | with right-hand sides ranging over every symbol 0..15 + nonterminals, a genome conforms to rule i's genes exactly when it holds a nonterminal left-hand side and the rule genes `execute` reads |
| Kitano.CheckAdmitsUndeclaredRead | src/kitano.cc:260-268 | as written, `check` accepts 16 rules with one nonterminal, yet `execute` then reads "R16-1", which is not declared |
| Kitano.CorrectedCheckDeclaresReads | src/kitano.cc:260-268 | with the corrected bound (rules >= 16 + nonterminals), every gene `execute` reads is declared, and conversely |
| Kitano.Connmat | src/kitano.cc:116-120 | the decoded matrix is 2^L x 2^L and holds only resolved values |
| Kitano.DecodedNetShape | src/kitano.cc:77-163 | without pictures the attached network has 2^L units; every output is enabled; the connections go forward within range with no duplicates, from enabled units to non-inputs; 0 <= conns <= totconns |
| Kitano.Defaults | src/kitano.cc:46-48 | without its parameters the encoding rewrites 5 times with 26 nonterminals and 64 rules |
| Kitano.KitanoEncoding.constructor | src/kitano.cc:43-49 | the base fields come from the parameters; the rewrites, nonterminals and rules come from their parameters or the defaults 5, 26 and 64 |
| Kitano.KitanoEncoding.Clone | src/kitano.cc:51-55 | the copy constructor copies every field |
| Kitano.KitanoEncoding.Copy | src/kitano.cc:57-63 | `copy` takes every field from the other encoding |
| Kitano.KitanoEncoding.CheckedExecutable | src/kitano.cc:260-268 | a checked encoding has at least one nonterminal and sizes a table can be made of, and a genome holding its declared genes holds every rule gene `execute` reads, in range |
| Kitano.KitanoEncoding.AddPrivateGenes | src/kitano.cc:65-75 | exactly the five integer genes of each rule, rule by rule, with their ranges |
| Kitano.KitanoEncoding.Execute | src/kitano.cc:77-163 | the statistic counts the ones of the decoded matrix (before forcing) over its pairs; with pictures no plan is attached and the description is the picture of the forced matrix; without pictures the plan is the network of the forced matrix and there is no description |
| Kitano.DecodeGenome | src/kitano.cc:82-120 | the rule table and the recursive decoding give a table holding the specified decoded matrix |
| Cangelosi.DescrGenesHeld | src/cangelosi.cc:134-147 | the genes of every daughter description declared so far are among the declarations |
| Cangelosi.AddDescrGenes | src/cangelosi.cc:125-148 | `addGenesTo` declares the genes of the 32 descriptions, type by type and daughter by daughter, with the segment length range split from its parameter, a face gene only when "NolfiEncoding.faceGene" is set, and a radius gene only for "auto-cell"; it also returns the two ends sMin and sMax it parsed; requires the two-part range its ASSERT demands |
| Cangelosi.AddRulesGenes | src/cangelosi.cc:134-148 | the nested type and daughter loops add exactly the genes of the 32 descriptions, in order |
| Cangelosi.RulesGenesStep | src/cangelosi.cc:134-136 | description 2r+d, daughter d of type r, is declared right after the 2r+d earlier ones |
| Cangelosi.Rules | src/cangelosi.cc:72-75 | `execute` reads 32 descriptions |
| Cangelosi.ReadRules | src/cangelosi.cc:72-75 | the loop reads daughter d of type r into slot 2r+d, decoded by `decodeFrom` |
| Cangelosi.ConformingRules | src/cangelosi.cc:125-167 | a genome holding what `addGenesTo` declares (the genes of at least the 32 descriptions) can be read by `decodeFrom`, and every description names a type 0..15 and a direction 0..7 |
| Cangelosi.DescrConforming | src/cangelosi.cc:134-167 | each declared description of a conforming genome is readable, and `decodeFrom` reads a type 0..15, a direction 0..7, deltas of bias, weight and angle in [-1, 1], a segment length delta in its configured range, a face delta in [0, 1] only with a face gene, and a radius factor in [0, 2] only for "auto-cell" (otherwise -666) |
| Cangelosi.OffsetsNeighbours | src/cangelosi.cc:208-209 | the eight directions step to the eight distinct neighbours of a cell, never staying in place |
| Cangelosi.Add | src/cangelosi.cc:207-221 | `add` replaces the type, adds the deltas of bias, weight, face and segment length, adds a tenth of the angle delta, moves the cell one step to a neighbour, and multiplies the tip radius only by a positive factor |
| Cangelosi.Daughter | src/cangelosi.cc:181-188 | a daughter is the mother changed by its description, facing 0, passing `check`, with a tip radius below 0.5 replaced by 1 |
| Cangelosi.AbsentGenes | src/cangelosi.cc:158-166 | without a radius gene a daughter keeps the mother's radius of at least 0.5; without a face gene the face does not change |
| Cangelosi.MotherCell | src/cangelosi.cc:190-200 | `make` is the Nolfi cell with no face, segment length or angle |
| Cangelosi.Mother | src/cangelosi.cc:246-253 | the mother is an expressed cell of type 0 at the origin, unindexed and untyped, with no face, segment length or angle, and with the space's tip radius when it is positive and 0.5 otherwise |
| Cangelosi.Divide | src/cangelosi.cc:255-276 | one cycle gives two daughters per cell, each of a type that has descriptions |
| Cangelosi.DivideIndex | src/cangelosi.cc:255-276 | daughter d of cell m is cell 2m+d of the next generation, built from description 2t+d of m's type t |
| Cangelosi.DaughterAt | src/cangelosi.cc:255-276 | cell i of the next generation is a daughter of cell i/2 |
| Cangelosi.Grown | src/cangelosi.cc:255-276 | after any number of cycles every cell has a type that has descriptions |
| Cangelosi.GrownCount | src/cangelosi.cc:255-276 | n cycles multiply the number of cells by 2^n |
| Cangelosi.GrownCells | src/cangelosi.cc:255-276 | after n cycles every cell is within n grid steps of where its ancestor was, still expressed and unindexed, and after one cycle or more every cell passes `check` facing 0 |
| Cangelosi.DivideCells | src/cangelosi.cc:255-276 | one cycle moves every cell one grid step and leaves the daughters expressed, unindexed and checked |
| Cangelosi.StepOnGrid | src/cangelosi.cc:181-188 | a daughter is one grid step from its mother |
| Cangelosi.IntShift | src/cangelosi.cc:208-209 | an integer coordinate moved by one direction step stays an integer |
| Cangelosi.NormalizedAll | src/cangelosi.cc:277-280 | the normalisation keeps the number of cells |
| Cangelosi.HalfBound | src/cangelosi.cc:277-280 | a coordinate within half the grid's width of the origin divides to within a half |
| Cangelosi.NormalizedInside | src/cangelosi.cc:277-280 | a cell within `cycles` steps of the origin lands strictly inside the unit square |
| Cangelosi.Developed | src/cangelosi.cc:83-87 | the mother grows into 2^cycles cells |
| Cangelosi.DevelopedCells | src/cangelosi.cc:83-87 | the mother grows into 2^cycles cells, each strictly inside the unit square, expressed, unindexed and typed 0..15, and after one cycle or more every cell passes `check` |
| Cangelosi.RewriteOnce | src/cangelosi.cc:257-275 | the inner loop of `rewrite` builds exactly the next generation |
| Cangelosi.CangelosiNet.constructor | src/cangelosi.cc:241-244 | a Nolfi cell space of the given sizes, with borders 0.3 and 0.7 and no hidden units, holding only the mother cell |
| Cangelosi.CangelosiNet.MakeMother | src/cangelosi.cc:246-253 | the cells become the mother alone, at the origin, with the space's tip radius |
| Cangelosi.CangelosiNet.Rewrite | src/cangelosi.cc:255-281 | the cells become the normalised result of `cycles` division cycles, and nothing else in the space changes |
| Cangelosi.CangelosiEncoding.constructor | src/cangelosi.cc:47-48 | the parameters are those of the Nolfi encoding, with its defaults |
| Cangelosi.CangelosiEncoding.Clone | src/cangelosi.cc:50-51 | the copy constructor copies every Nolfi parameter |
| Cangelosi.CangelosiEncoding.Copy | src/cangelosi.cc:53-56 | `copy` takes every Nolfi parameter from the other encoding |
| Cangelosi.CangelosiEncoding.AddPrivateGenes | src/cangelosi.cc:58-67 | the description genes, then the genome-global tip radius gene only for "auto-network" |
| Cangelosi.CangelosiEncoding.Execute | src/cangelosi.cc:69-111 | the grown cells with the configured or genome-global radius either fail the cell space's acceptance, and no plan is attached, or are indexed by position and wired by proximity once scaled; a plan is attached iff some connection was made and no pictures are taken, and it is that wiring; the wiring has inputs + 2^cycles + outputs units and is feed-forward within range with no duplicate connections, and every pair that passes the proximity tests is connected from the reaching cell to the candidate |
| Cangelosi.CangelosiEncoding.Develop | src/cangelosi.cc:72-87 | a fresh cell space of the encoding's sizes, holding the mother grown for `cycles` cycles with the genome's descriptions |
| NolfiCells.Make | src/nolfinet.cc:148-162 | a new cell is expressed, at the origin, with angle, length, weight, bias and tip radius 0.5, type 0, no index and no class |
| NolfiCells.Copy | src/nolfinet.cc:164-177 | `copy` takes every attribute of the original |
| NolfiCells.SetPos | include/annalee/nolfinet.h:80-85 | `setPos` changes the position only |
| NolfiCells.SetTipRadius | include/annalee/nolfinet.h:93 | `setTipRadius` changes the tip radius only |
| NolfiCells.MapTo | include/annalee/nolfinet.h:95-99 | `mapTo` changes the index in the final network only |
| NolfiCells.CellGenesKeys | src/nolfinet.cc:202-222 | cell i declares exactly the genes of its letters: "e" only with "NolfiEncoding.existenceGene", "x", "y", "a", "s", "w", "b" and "t" always, and "r" only for "auto-cell", each once |
| NolfiCells.DecodeCell | src/nolfinet.cc:232-250 | `decodeFrom` reads the position, bias, weight, segment and type from their genes; a cell without an existence gene is expressed, one without a radius gene keeps its radius, and the index and class are cleared |
| NolfiCells.DecodeDeclared | src/nolfinet.cc:202-250 | a genome holding cell i's declared genes can be decoded, and the cell read has its attributes in the declared ranges |
| NolfiCells.DecodedChecked | src/nolfinet.cc:301-303 | a decoded cell passes `check` iff its tip radius, read from its own radius gene or else kept, is at least 0.5 |
| NolfiCells.DeclaredHeld | src/nolfinet.cc:210-221 | every declared cell gene is present with a value in its declared range, the type below 2^typebits |
| NolfiCells.AxonString | src/nolfinet.cc:124-138 | the axon string has 121 characters, 31 segments and no X left |
| NolfiCells.BranchCounts | src/nolfinet.cc:128 | the rule's right-hand side "F[-X][+X]" holds two X's and one F |
| NolfiCells.BranchCount | src/nolfinet.cc:128 | the letters of the right-hand side are those of its pieces |
| NolfiCells.GrowCounts | src/nolfinet.cc:128-130 | one growth step doubles the X's, gives each X one F and adds eight characters per X |
| NolfiCells.AxonCounts | src/nolfinet.cc:128-130 | n growth steps from "X" give 2^n X's, 2^n-1 F's and 1+8(2^n-1) characters |
| NolfiCells.CloseCounts | src/nolfinet.cc:133-135 | closing turns every X into an F and keeps the length |
| Nolfi.TypeBits | src/nolfinet.cc:218 | the type gene has the fewest bits whose 2^bits covers the number of types |
| Nolfi.TypeBitsPow2 | src/nolfinet.cc:190-192 | for a power of two as documented, the type gene has exactly log2 types bits and ranges over every type |
| Nolfi.AcceptedRadii | src/nolfi.cc:39-46 | the default radius and "auto-cell" and "auto-network" pass the constructor's assertion |
| Nolfi.RefusedSmallRadius | src/nolfi.cc:42-46 | a radius below 0.5, such as "0.4", is refused |
| Nolfi.RefusedAutoGenome | src/nolfi.cc:42-46 | "auto-genome", which the error message names, is refused too |
| Nolfi.CellsGenesKeys | src/nolfi.cc:72-73 | the cell genes are exactly the genes of the letters of the cells 0..n-1 |
| Nolfi.CellsGenesHold | src/nolfi.cc:72-73 | every cell i < n has its genes among the cell genes |
| Nolfi.DecodedCells | src/nolfinet.cc:349-362 | `decodeFrom` reads one cell per hidden unit |
| Nolfi.ConformingDecodable | src/nolfi.cc:67-83 | a genome holding the declared genes, radius genes only where they are declared and a valid configured radius, can be read into sound cells |
| Nolfi.NolfiEncoding.constructor | src/nolfi.cc:27-47 | the number of types comes from its parameter; the space 9 x 22, axon scale 0.5, tip radius 0.5 and neurons come from their parameters or these defaults; requires the radius its assertion demands |
| Nolfi.NolfiEncoding.Clone | src/nolfi.cc:49-55 | the copy constructor copies every field |
| Nolfi.NolfiEncoding.Copy | src/nolfi.cc:57-65 | `copy` takes every field from the other encoding |
| Nolfi.NolfiEncoding.AddPrivateGenes | src/nolfi.cc:67-77 | the genes of each cell in turn, then the genome-global radius gene only for "auto-network" |
| Nolfi.NolfiEncoding.Execute | src/nolfi.cc:79-113 | decoded cells the cell space does not accept give no plan; otherwise the cells are indexed by position and wired by proximity once scaled; a plan is attached iff some connection was made and no pictures are taken, and it is that wiring, over inputs + maxHidden + outputs units, feed-forward within range with no duplicate connections, every pair that passes the proximity tests connected from the reaching cell to the candidate |
| NolfiNets.ResolvedAll | src/nolfinet.cc:399-429 | typing keeps the number of cells |
| NolfiNets.CountClass | src/nolfinet.cc:399-429 | a typing counter counts at most every cell |
| NolfiNets.CountType | src/nolfinet.cc:399-429 | a count of the cells of one final type is at most the number of cells |
| NolfiNets.ResolvedCounted | src/nolfinet.cc:399-429 | for untyped cells, each counter of `resolveTypes` is the number of cells that leave with that type |
| NolfiNets.ResolvedPlaced | src/nolfinet.cc:399-429 | typing changes only the type: a new input lies left of the input border, a new output right of the output border, a new hidden cell between them, each expressed and vertically inside the unit square |
| NolfiNets.CountEligible | src/nolfinet.cc:434-450 | at most every cell is still to be indexed |
| NolfiNets.PickingStart | src/nolfinet.cc:434-450 | before the first pick nothing is picked |
| NolfiNets.EligibleExists | src/nolfinet.cc:434-450 | while cells remain to be indexed one of them can be picked |
| NolfiNets.NoneEligible | src/nolfinet.cc:434-450 | once the count is zero no cell remains to be indexed |
| NolfiNets.AllEligible | src/nolfinet.cc:434-450 | when every cell is still unindexed, all of them are counted |
| NolfiNets.CountEligibleUpdate | src/nolfinet.cc:440-448 | giving one cell an index removes one cell from those left |
| NolfiNets.FindMin | src/nolfinet.cc:438-446 | the inner loop picks an unindexed cell with the smallest x, the last such cell in the list among equals |
| NolfiNets.StepSame | src/nolfinet.cc:447-448 | giving the picked cell an index changes that cell's index only |
| NolfiNets.StepRange | src/nolfinet.cc:447-448 | the indices given so far are the next ones in order |
| NolfiNets.StepDistinct | src/nolfinet.cc:447-448 | the indices given so far are pairwise distinct |
| NolfiNets.StepFirst | src/nolfinet.cc:438-448 | every picked cell comes before every cell still to be indexed in the x order |
| NolfiNets.StepOrdered | src/nolfinet.cc:438-448 | smaller indices go to cells earlier in the x order |
| NolfiNets.PickStep | src/nolfinet.cc:436-449 | one pick keeps the selection loop's invariant |
| NolfiNets.PickedAll | src/nolfinet.cc:434-450 | once every cell is picked, each has its own index from the base on, following the x order, and nothing else changed |
| NolfiNets.ClearStep | src/nolfinet.cc:455-466 | the removal at row i, column j clears cell j's index exactly when cell i (still holding its index) shares it |
| NolfiNets.DedupUnique | src/nolfinet.cc:455-466 | after the removal no two cells share an index |
| NolfiNets.DedupKeeps | src/nolfinet.cc:455-466 | every index survives the removal, held by its first holder |
| NolfiNets.DedupIdempotent | src/nolfinet.cc:455-466 | removing duplicates twice is removing them once |
| NolfiNets.NearTip | src/nolfinet.cc:565-579 | the tip loop finds a tip iff one of the cell's axon tips lies closer than the tip radius |
| NolfiNets.CountExpressed | src/nolfinet.cc:539-558 | a count of the expressed cells of a type is at most the number of cells |
| NolfiNets.ConnectRow | src/nolfinet.cc:565-579 | the j loop of one expressed cell appends one connection to each candidate its axon reaches that is not connected in either direction yet, only those, and counts them |
| NolfiNets.ConnectCell | src/nolfinet.cc:535-580 | handling cell i takes the network wired for cells 0..i-1 to the network wired for cells 0..i |
| NolfiNets.WiredStart | src/nolfinet.cc:526-535 | a fresh network is the wiring of no cells |
| NolfiNets.StepDisabled | src/nolfinet.cc:539-542 | an unexpressed cell disables its unit and adds no connection |
| NolfiNets.PrefixKept | src/nolfinet.cc:565-579 | a network only grows: its earlier connections stay |
| NolfiNets.StepOrigins | src/nolfinet.cc:546-579 | every connection an expressed cell adds is its input connection, its output connection, or one to a candidate its axon reaches |
| NolfiNets.StepExpressed | src/nolfinet.cc:546-579 | an expressed cell adds its input or output connection and its proximity connections and keeps the wiring invariant |
| NolfiNets.StepJoined | src/nolfinet.cc:546-579 | an expressed cell's input, output and proximity connections keep the connections joined to the cells handled so far |
| NolfiNets.StepUnrepeated | src/nolfinet.cc:546-579 | for cells with distinct indices, an expressed cell's connections are new, so the network keeps no duplicate connection |
| NolfiNets.IONew | src/nolfinet.cc:546-558 | the input and output connections of cell i differ from every connection of the cells before it |
| NolfiNets.RowNew | src/nolfinet.cc:565-579 | a proximity connection of cell i differs from every earlier connection and from i's input and output connections |
| NolfiNets.RowStep | src/nolfinet.cc:565-579 | appending the connection to candidate j keeps the row's connections to earlier candidates and pairwise distinct |
| NolfiNets.WiredShape | src/nolfinet.cc:526-587 | the wiring of cells with distinct indices in the network's range joins units of the network, runs forward only and has no duplicate connections; every pair that passes the proximity tests is connected from the reaching cell to the candidate, never the other way |
| NolfiNets.ScaledAll | src/nolfinet.cc:482-492 | scaling keeps the number of cells |
| NolfiNets.ScaledKeeps | src/nolfinet.cc:482-492 | scaling changes only the position and the segment length, and keeps the x order by which cells are indexed |
| NolfiNets.GrownShape | src/nolfinet.cc:476-524 | the network wired from cells indexed by x and then scaled joins units of the network, runs forward only, has no duplicate connections, and connects every pair that passes the proximity tests from the reaching cell to the candidate |
| NolfiNets.NolfiNet.constructor | src/nolfinet.cc:324-344 | an empty cell space of the given sizes, with input border 0.3, output border 0.7, no hidden units and a size one more than the larger of inputs and outputs |
| NolfiNets.NolfiNet.ResolveTypes | src/nolfinet.cc:399-429 | every cell is typed by its position and the three counters count the cells of each type |
| NolfiNets.NolfiNet.IndexHiddens | src/nolfinet.cc:434-450 | every cell gets its own index from `inputs` on, in the x order, with a later cell first among equal x, and nothing else changes |
| NolfiNets.NolfiNet.IndexCells | src/nolfinet.cc:375-397 | succeeds iff there is at least one input, one hidden and one output cell and no fewer output cells than outputs; on success every cell is indexed by x and there are as many hidden units as hidden cells; on failure the cells are typed only |
| NolfiNets.NolfiNet.DecodeFrom | src/nolfinet.cc:349-362 | a genome-global tip radius replaces the configured one, and the cells are the maxHidden cells read from the genome with that radius |
| NolfiNets.NolfiNet.RemoveDuplicates | src/nolfinet.cc:455-466 | the cells become their deduplication, and the output count drops once per cleared output |
| NolfiNets.NolfiNet.Connect | src/nolfinet.cc:526-587 | the network is the full wiring of the cells: unexpressed cells' units disabled and no others; input and output connections of expressed cells; every proximity connection present in one direction or the other; `connections` counts the proximity connections |
| NolfiNets.NolfiNet.GrowNet | src/nolfinet.cc:476-524 | no net when indexing fails; otherwise the cells are indexed by x and scaled, a fresh network is wired from them, and it is returned iff some proximity connection was made |
| ExtNolfi.Trunc | src/extnolfi.cc:5 | C++'s conversion to int truncates toward zero |
| ExtNolfi.RoundedYUnit | src/extnolfi.cc:5 | inside the unit square the rounded y is 0 for the lower half and 1 for the upper half |
| ExtNolfi.IndexInputs | src/extnolfi.cc:2-6 | each output cell gets its rounded y as its index; every other cell stays as it is |
| ExtNolfi.IndexHiddens | src/extnolfi.cc:8-30 | exactly `hiddens` picks, each the unindexed hidden cell with the smallest x (the last among equals), indexed from `inputs` on; requires as many unindexed hidden cells as the ASSERT demands |
| ExtNolfi.IndexOutputs | src/extnolfi.cc:32-41 | every output cell gets the index right after the hidden units, which lies among the final output units as the ASSERTs demand; every other cell stays as it is |
| ExtNolfi.OneOutputKept | src/extnolfi.cc:32-53 | since all output cells share one index, at most one of them keeps an index after `removeDuplicates` |
| ExtNolfi.CloseTip | src/extnolfi.cc:75-86 | the tip loop finds a tip iff one of the axon tips lies at a squared distance below 25 |
| ExtNolfi.ConnectRow | src/extnolfi.cc:73-86 | the j loop of an indexed cell connects it to each target its axon reaches, once, and only to those |
| ExtNolfi.JoinSkip | src/extnolfi.cc:73-86 | a candidate that is no target, or is connected already, adds nothing |
| ExtNolfi.JoinRowDone | src/extnolfi.cc:57-91 | once every candidate of cell i is handled, so is cell i |
| ExtNolfi.JoinStep | src/extnolfi.cc:79-83 | appending a new connection to a target keeps the invariant and counts one more connection |
| ExtNolfi.Connect | src/extnolfi.cc:55-95 | `connect` appends exactly `connections` new connections, each from an indexed cell to a larger-indexed hidden or output cell its axon reaches, connects every such pair, and makes no connection twice |
| ExtNolfi.JoinedForward | src/extnolfi.cc:74 | every connection `connect` makes goes from a lower to a higher unit |
| Miller.WeightRowKeys | src/puredirect.cc:102-103 | row i declares exactly the binary genes "W<i>-<j>" of its range of j, each once |
| Miller.RowGenesKeys | src/puredirect.cc:94-104 | row i declares "E<i>" exactly when i is no input or input pruning is on, and "W<i>-<j>" for every later unit j, each once, all binary |
| Miller.MillerGenesKeys | src/puredirect.cc:89-105 | the genome declares "E<i>" exactly for the encoded input and hidden units and "W<i>-<j>" for every input or hidden i and later unit j, each once, all binary |
| Miller.ConformingReadable | src/puredirect.cc:89-158 | a genome holding the declared genes holds a bit for every gene `execute` reads |
| Miller.Connmat | src/puredirect.cc:136-172 | the matrix of `execute` is square over all units, with the specified entry at each position |
| Miller.ConnmatShape | src/puredirect.cc:136-172 | the matrix is 0/1; it has nothing below the diagonal, between two inputs, or off the diagonal of an output row; an unpruned input's diagonal is 0; once forced, the outputs' diagonal is 1 |
| Miller.MatrixNet | src/puredirect.cc:176-182 | unit i is enabled iff its diagonal is set |
| Miller.RowEdgesMembers | src/puredirect.cc:178-181 | the connections of unit i go to each later unit whose diagonal and whose entry in row i are set, once each |
| Miller.NetEdgesMembers | src/puredirect.cc:176-182 | i -> j is a connection iff i < j and the entries (i, i), (j, j) and (i, j) are all set, each such pair once |
| Miller.MatrixNetShape | src/puredirect.cc:176-182 | the network joins units of the network, runs forward only, has no self-loops or duplicates, and joins only enabled units |
| Miller.DecodedNet | src/puredirect.cc:129-182 | unit i is enabled iff it is an output or its existence gene is encoded and set; i -> j is a connection iff i < j, i is no output, j is no input, both exist and "W<i>-<j>" is set |
| Miller.DescRow | src/puredirect.cc:191-195 | one character per entry: '1' for a set entry and '0' otherwise |
| Miller.DescribeLength | src/puredirect.cc:188-196 | the description of rows 0..k-1 has n+1 characters per row |
| Miller.DescribePrefix | src/puredirect.cc:188-196 | describing more rows only extends the description |
| Miller.DescribeAt | src/puredirect.cc:188-196 | character j of row i is '1' or '0' for entry (i, j), and each row ends with a newline |
| Miller.PruneInputsAbsent | src/puredirect.cc:64 | without "MillerEncoding.pruneInputs" input pruning is off and no input has an existence gene, although the parameter is documented with the default 1 |
| Miller.MillerEncoding.constructor | src/puredirect.cc:59-67 | the base fields from the parameters; input pruning, pcVariance and pcAverage read from their parameters without defaults |
| Miller.MillerEncoding.Clone | src/puredirect.cc:69-73 | the copy constructor copies every field |
| Miller.MillerEncoding.Copy | src/puredirect.cc:78-84 | `copy` takes every field from the other encoding |
| Miller.MillerEncoding.AddPrivateGenes | src/puredirect.cc:89-105 | exactly the specified existence and weight genes, row by row |
| Miller.MillerEncoding.AddWeightRow | src/puredirect.cc:102-103 | the inner loop adds the connection genes "W<i>-<j>" of row i for j = i+1 .. total-1, in order |
| Miller.MillerEncoding.Execute | src/puredirect.cc:129-219 | the statistic counts the ones of the unforced matrix over its pairs; with pictures there is no plan and the description is that of the forced matrix; without pictures the plan is the network of the forced matrix and there is no description |
| Miller.ZeroMatrix | src/puredirect.cc:138-141 | every entry becomes 0 |
| Miller.ReadUnits | src/puredirect.cc:144-149 | the diagonal gets each unit's existence entry and every other entry stays 0 |
| Miller.ReadWeights | src/puredirect.cc:153-158 | the matrix then holds the unforced entry everywhere |
| Miller.EnableOutputs | src/puredirect.cc:171-172 | the matrix then holds the forced entry everywhere |
| Miller.CountEntries | src/puredirect.cc:161-166 | the counters count the pairs the statistic ranges over and the ones among them |
| Miller.EntryCounted | src/puredirect.cc:163-166 | counting entry (i, j) of a 0/1 matrix adds one pair and the entry itself |
| Miller.CountRowEntries | src/puredirect.cc:163-166 | the inner loop adds row i's pairs and its ones |
| Miller.ConnectUnits | src/puredirect.cc:176-182 | the loop computes the specified network of the matrix |
| Miller.ConnectRow | src/puredirect.cc:179-181 | an existing unit i is connected to each later existing unit whose entry is set, in column order, and no unit is enabled or disabled |
| Miller.DescribeMatrix | src/puredirect.cc:188-196 | the loops compute the whole description |
| DirectNet.Flag | src/layered.cc:48-50 | a flag parameter is its default when absent, and otherwise on iff it reads as a non-zero integer |
| DirectNet.InputGenesKeys | src/layered.cc:81-83 | the input pruning genes are exactly the binary genes "R<i>" of the inputs, each once |
| DirectNet.HiddenGenesKeys | src/layered.cc:95-96 | the hidden pruning genes are exactly the binary genes "H<i>" of the hidden units, each once |
| DirectNet.AddInputGenes | src/layered.cc:81-83 | the loop appends the input pruning genes |
| DirectNet.AddHiddenGenes | src/layered.cc:95-96 | the loop appends the hidden pruning genes |
| DirectNet.Readout | src/layered.cc:99-171 | the network has a unit per input, hidden and output; an input exists unless pruned away by its "R" gene, a hidden unit iff its "H" gene is set, an output always |
| DirectNet.InputRowMembers | src/layered.cc:131-143 | the connections of input i go to each hidden unit whose weight is on, once each |
| DirectNet.InputEdgesMembers | src/layered.cc:117-145 | the input connections are exactly those from an existing input to a hidden unit whose weight is on, each once |
| DirectNet.OutputRowMembers | src/layered.cc:153-165 | output o receives a connection from each hidden unit whose weight is on, once each |
| DirectNet.OutputEdgesMembers | src/layered.cc:150-166 | the output connections are exactly those from a hidden unit whose weight is on to an output, each once |
| DirectNet.ReadoutEdges | src/layered.cc:99-171 | the network's connections are exactly the input and the output connections, with no duplicates |
| DirectNet.ReadoutShape | src/layered.cc:99-171 | the network joins units of the network, runs forward only, has no self-loops or duplicates, and without weight pruning joins only existing units |
| DirectNet.PrunedWeightsIgnoreHidden | src/layered.cc:132-138 | with weight pruning a connection can reach a hidden unit that does not exist |
| DirectNet.PrunedWeightsShared | src/layered.cc:135-138 | with weight pruning input x feeds hidden unit h iff h feeds output x: both read the same gene "W<x>-<h>" |
| DirectNet.Decode | src/layered.cc:99-171 | the loops of `execute` build exactly the specified network |
| DirectNet.ReadHidden | src/layered.cc:104-112 | the hidden existence array holds the "H" genes and each hidden unit is enabled as it exists |
| DirectNet.ConnectInputs | src/layered.cc:117-145 | every input is enabled as it exists, and the input connections are appended in order |
| DirectNet.ConnectInputRow | src/layered.cc:131-143 | the connections of one existing input are appended in hidden order, and no flag changes |
| DirectNet.ConnectOutputs | src/layered.cc:150-166 | the output connections are appended in order, and no flag changes |
| Layered.Layering | src/layered.cc:53-58 | the layering has one number per "-"-separated piece of the description, each the `toInt` of its piece |
| Layered.ParseLayering | src/layered.cc:53-58 | the loop computes the layering |
| Layered.WeightCellKeys | src/layered.cc:88-91 | input i and hidden unit j of layer l declare "WX<l>:<i>-<j>" exactly with weight pruning (binary) and "W<l>:<i>-<j>" exactly with weight encoding |
| Layered.WeightRowKeys | src/layered.cc:87-92 | the weight genes of input i of layer l, for every hidden unit, each once |
| Layered.WeightBlockKeys | src/layered.cc:86-92 | the weight genes of layer l, for every input and hidden unit, each once |
| Layered.WeightGenesKeys | src/layered.cc:85-92 | the weight genes of every layer, input and hidden unit, each once |
| Layered.LayeredGenesKeys | src/layered.cc:77-97 | the encoding declares an "R" gene per input exactly with input pruning, the weight genes, and an "H" gene per hidden unit, each once, all binary but the encoded weights |
| Layered.ConformingReadable | src/layered.cc:77-171 | without weight pruning a genome holding the declared genes holds every gene `execute` reads |
| Layered.PrunedWeightsUndeclared | src/layered.cc:85-92 | with weight pruning no gene "W<i>-<h>" is declared, so a genome holding only declared genes cannot be read |
| Layered.LayeredEncoding.constructor | src/layered.cc:45-59 | base fields from the parameters; input pruning on, weight pruning and weight encoding off unless their parameters say otherwise; the layering parsed from "layering" |
| Layered.LayeredEncoding.Clone | src/layered.cc:61-66 | the copy constructor copies the base fields, both pruning flags and the layering, but not `encodeWeights` |
| Layered.LayeredEncoding.Copy | src/layered.cc:68-75 | `copy` takes the same fields and keeps this encoding's own `encodeWeights` |
| Layered.LayeredEncoding.AddPrivateGenes | src/layered.cc:77-97 | exactly the specified layered genes |
| Layered.LayeredEncoding.Execute | src/layered.cc:99-171 | the attached network is the specified readout of the genome |
| Layered.AddWeightGenes | src/layered.cc:85-92 | the three nested loops add the weight genes layer by layer |
| Layered.AddWeightBlock | src/layered.cc:86-92 | one layer, input by input |
| Layered.AddWeightRow | src/layered.cc:87-92 | one input of one layer, hidden unit by hidden unit |
| Direct.PairGenesKeys | src/direct.cc:67-72 | the pair (i, j) declares "WX<i>-<j>" exactly with weight pruning and "WV<i>-<j>" exactly with weight encoding, both binary |
| Direct.PairRowKeys | src/direct.cc:65-73 | the pair genes of source i, for every target, each once |
| Direct.PairBlockKeys | src/direct.cc:64-73 | the pair genes of every source and target, each once |
| Direct.DirectGenesKeys | src/direct.cc:55-78 | the encoding declares an "R" gene per input exactly with input pruning, the pair genes of every i < inputs + maxHidden and j < maxHidden + outputs, and an "H" gene per hidden unit, each once, all binary |
| Direct.ConformingReadable | src/direct.cc:55-158 | without weight pruning a genome holding the declared genes holds every gene `execute` reads |
| Direct.PrunedWeightsUndeclared | src/direct.cc:64-73 | with weight pruning no gene "W<i>-<h>" is declared, so a genome holding only declared genes cannot be read |
| Direct.DirectEncoding.constructor | src/direct.cc:35-39 | base fields from the parameters; input pruning on, weight pruning and weight encoding off unless their parameters say otherwise |
| Direct.DirectEncoding.Clone | src/direct.cc:41-45 | the copy constructor copies every field |
| Direct.DirectEncoding.Copy | src/direct.cc:47-53 | `copy` takes every field from the other encoding |
| Direct.DirectEncoding.AddPrivateGenes | src/direct.cc:55-78 | exactly the specified direct genes |
| Direct.DirectEncoding.Execute | src/direct.cc:80-158 | the attached network is the specified readout of the genome |
| Direct.AddPairGenes | src/direct.cc:64-73 | the nested loops add the pair genes source by source |
| PureLayered.PureLayeredEncoding.constructor | src/purelayered.cc:45-49 | the fields of a layered encoding built from the same parameters |
| PureLayered.PureLayeredEncoding.Clone | src/purelayered.cc:51-54 | the layered copy constructor: every field but `encodeWeights` |
| PureLayered.PureLayeredEncoding.Copy | src/purelayered.cc:56-59 | the layered `copy`: the same fields, keeping its own `encodeWeights` |
| PureLayered.PureLayeredEncoding.Execute | src/purelayered.cc:72-144 | the attached network is the specified readout of the layered fields |
| Neat.ConnectionGenesFit | src/neat.cc:122-133 | a genome fits a connection's genes iff "E" holds a bit and "W" holds a real in [-1, 1] |
| Neat.ConnectionGene.constructor | src/neat.cc:88-98 | the name, innovation number, source and target are those given |
| Neat.ConnectionGene.Clone | src/neat.cc:100-106 | the copy constructor keeps the name and the three numbers |
| Neat.ConnectionGene.AddPrivateGenes | src/neat.cc:122-133 | exactly the binary expression gene "E", then the weight "W" in [-1, 1] |
| Neat.NodeNamesConsecutive | src/neat.cc:197-208 | the node names are "U<start>", "U<start+1>", ..., one per node |
| Neat.NodeNamesDistinct | src/neat.cc:197-208 | no node name occurs twice, and the numbers are exactly those from start on |
| Neat.NodeNamesFresh | src/neat.cc:197-208 | nodes created after the counter has moved on never reuse an earlier name |
| Neat.NodeNamesAppend | src/neat.cc:197-208 | the output nodes continue the numbering of the input nodes |
| Neat.NEATEncoding.constructor | src/neat.cc:148-152 | the base fields from the parameters, and the innovation counter at 0 |
| Neat.NEATEncoding.Clone | src/neat.cc:157-161 | the copy constructor copies the base fields and starts the counter again at 0 |
| Neat.NEATEncoding.Copy | src/neat.cc:174-177 | `copy` takes the base fields only; the counter stays |
| Neat.NEATEncoding.AddPrivateGenes | src/neat.cc:189-209 | inputs and outputs are read from "NEATEncoding.inputs" and "NEATEncoding.outputs"; one node per input, then one per output, named by consecutive counter values; the counter advances by their number |
| Neat.NEATEncoding.NewNodes | src/neat.cc:196-207 | one loop of `addPrivateGenes`: count nodes named by consecutive counter values from the current one; the counter advances by count (by nothing for a negative count) and the sizes stay |
| Neat.NEATEncoding.PointMutate | src/neat.cc:214-227 | no mutation is reported |
| Neat.NEATEncoding.Execute | src/neat.cc:239-242 | failure is reported |

## Left out

- Axon geometry: `NolfiCell::developAxon`, the turtles and the external L-grammar library use trigonometry and floating-point steps. The model takes the axon tips of each cell as an input, and proximity is "some tip within the radius of the target".
- Rendering: `drawEPS`, `drawFeedForward` and the commented-out picture output produce no part of the network. A picture-taking message (`TakeBrainPicsMsg`) is the `takePics` flag of each `Execute`. Under it Nolfi's and Cangelosi's encodings attach no plan, and the EPS pictures they store as "brainpic1" to "brainpic3" are not modelled.
- Genes, gene containers and networks are external classes: `Gentainer`, `BinaryGene`, `IntGene`, `BitFloatGene`, `ANNetwork` and `FreeNetwork`. Genomes are maps and networks are values. `cleanup`, `setInitializer`, the network's own `check` and `init`, unit positions and `moveTo` are not modelled.
- The maximum of an `IntGene` is taken as exclusive (`Genes.IntGene`); the gene class is external. Genomes hold only in-range values (`KitanoGrammar.RuleGenes`, `Cangelosi.RulesFit`), because the range check belongs to the external gene class.
- Missing genes: `getGene` returns null for a name that is not in the genome, and the code dereferences the result. So each `execute` requires that the genes it reads are present (`DirectNet.Readable`, `Miller.Readable`, `KitanoGrammar.RuleGenes`, `Nolfi.Decodable`, `Cangelosi.RulesReady`). Genes whose absence the code does handle, such as Nolfi's "e" and "r" genes, are modelled as optional.
- Randomness: `MillerEncoding::init` draws Gaussian weights, Kitano's `makeNet` places units with `frnd()`, and `BinaryGene` initial probabilities and `hide()` affect only initial genomes. None of these is modelled.
- Floating point:
  - the pConn ratio and its formatting: the model states the two counts instead;
  - edge weights, biases and transfer functions (`setTFunc`);
  - the linear transfer functions of the inputs and the placement of the output units (`moveTo`) in `growNet` (src/nolfinet.cc:512-521). The coordinate scaling of `growNet` is modelled over reals by `NolfiNets.Scaled`.
- Cangelosi.CangelosiEncoding.Execute: the number of cycles `int(log(maxHidden)/log(2)+0.99)` is a parameter of the model, not computed from a floating-point logarithm.
- Nolfi.TypeBits: the number of type bits is the ceiling of log2(types), computed exactly on integers rather than with floating-point logarithms. For fewer than one type it gives 0 bits, where the code takes the logarithm of a number that is not positive. The code's `int(log(types)/log(2)+.999)` (src/nolfinet.cc:218) is one bit short of this count for some counts just above a power of two, such as 2049 and 4097, whose logarithm exceeds the power by less than 0.001.
- Params.Atoi, Params.Atof: leading white space, exponents and hexadecimal numbers are not read; a string starting with any of them reads as 0.
- Learning: `src/learningenv.cc` is not part of this model. It trains, loads data sets and writes files, none of which is part of the encodings.
- PureLayered: `PureLayeredEncoding::addPrivateGenes` increments `i` in its layer loop and names an undeclared `mLayers`, so it defines no behaviour to model. Its encoding declares no genes of its own here.
- Neat: `NEATEncoding::init` and `ConnectionGene::init` are empty, and `NodeGene` declares no genes. The model has no members for them.
- `ANNEncoding::copy` is the assignment of the `ann` fields inside each encoding's `Copy`. Only `AnnGenes.Construct` and `AnnGenes.CheckBounds` stand for the base class.
- Layered.LayeredEncoding.Clone: `encodeWeights` is left unset by the copy constructor (src/layered.cc:61-66), so the contract says nothing about it.
- Neat.NEATEncoding.Clone: the innovation counter starts at 0 again, as the code does, rather than being copied.
- NolfiNets.NolfiNet.Connect: for arbitrary cells, `Wired` allows the connection of a pair that passes the proximity tests in either direction. With indices that repeat or that do not follow the unit ranges, the external `connectedFrom` test (src/nolfinet.cc:572) can find a connection made the other way round, and the model does not describe which cell the external network class identifies by index. For the cells `growNet` wires, numbered with distinct indices, the direction is proved: from the reaching cell to the candidate (`NolfiNets.WiredShape`, `NolfiNets.GrownShape` and both `Execute` contracts), with no connection made twice.
- Program-wide singletons and messages: the brainplan is modelled as the network each `Execute` returns, or as no network when decoding fails or pictures are taken. `cleanup` of the plan before it is attached is not modelled.

## Findings

| source | as written | input that shows it | evidently intended | confidence | as-written member | corrected member |
|---|---|---|---|---|---|---|
| src/kitano.cc:71-73 | the left-hand side gene ranges over 16..16+N and each right-hand side gene over 0..15+N, for N nonterminals | read with the maximum exclusive, the one reading under which a left-hand side stays inside the table of 16+N rows (src/kitano.cc:82, 107), no right-hand side can name nonterminal 15+N: the rule 16 -> 16 16 16 16 with N = 1 is readable but not declarable | right-hand sides over every symbol 0..15+N; `Execute` is modelled over that range (`KitanoGrammar.RuleGenes`) | not executed | Kitano.LastNonterminalNeverNamed | Kitano.CorrectedRuleDeclExact |
| src/kitano.cc:266 | `check` accepts any rule count from 16 up | rules = 16 with one nonterminal: `addPrivateGenes` declares rules 0..15 (src/kitano.cc:68-74), but `execute` reads gene "R16-1" (src/kitano.cc:95-102) | rules >= 16 + nonTerminals, so every rule `execute` reads is declared | not executed | Kitano.CheckAdmitsUndeclaredRead | Kitano.CorrectedCheckDeclaresReads |
