# Models of ed, csh and dd

This project models the parts of three Unix programs that are hardest to get right and proves what they promise.
Paths are those of the repository.

- **ed** (`bin/ed`): the line buffer, a circular list with a cached cursor; the undo stack, which keeps removed
  blocks with their old links and replays them; the commands built on both (append, delete, transfer, move, join,
  substitute, global), also on buffers whose links are in no order (`EdLoose`); the commands as steps on the text
  (`EdText`, `EdLaws`); the encrypted files (`EdCipher`). The other modules are `EdRing`, `EdBuffer`, `EdCommands`,
  `EdRewrite` and `EdGlobal`.
- **csh** (`bin/csh`): the variable table, an AVL tree with parent links (`CshName`, `CshTree`, `CshTable`, `CshHeap`,
  `CshBalance`, `CshSet`, `CshList`); the job table, rings of processes on one list (`CshJobs`); the storage allocator
  (`CshPower`, `CshBucket`, `CshAlloc`); the alias pass, the command parser and the printer of command trees
  (`CshHeads`, `CshAlias`, `CshSyntax`, `CshParse`, `CshParser`, `CshPrint`, `CshReprint`, `CshRoundTrip`); the expression evaluator
  (`CshNumber`, `CshExpr`, `CshArith`, `CshExprTree`, `CshEvaluator`); glob patterns and brace expansion (`CshMatch`, `CshBrace`);
  the command hash (`CshHash`).
- **dd** (`bin/dd`): the conversions to and from fixed-length records and the output buffer (`DdConv`, `DdCopy`).

`Basics` and `Machine` hold what the modules share.

Code that changes state is modelled by classes and methods with loops, proved against functions on values; what the
programs promise is proved about those functions. A class carries ghost fields (the ring, the history, the processes
of a table) to which its validity predicate ties the links.

## Where the code departs from what it promises

- `m` with line1, line2 and the target all the same line leaves curln one too high, and on the last line it names a
  line that does not exist (`EdCommands.Move`, `bin/ed/ed.c:724`).
- `i` at address 0 puts the lines behind the last line (`EdLaws.InsertPlaces`, `bin/ed/ed.c:678`).
- An edit that a global command makes while usw is set, that is after an odd number of u's, is recorded all the same,
  and on the wrong side: undo and ureset take added lines, which are in the buffer, for lines that are out, and deleted
  ones for lines that are in. That a record is right is exactly that usw was clear (`EdBuffer.Editor.AddFirst`,
  `EdBuffer.Editor.Del`, `EdBuffer.Editor.TakenRight`). A later u relinks what such a record names: where a global
  command runs d and u on two lines, lastln ends one below the number of lines that the links lead to, and line 3 points
  back at a line that is out (`EdGlobal.TwoUndone`).
- dowrite takes the negative value of a char from 128 on for a failure to write: an encrypted file is written exactly
  if its text has seven-bit characters only (`EdCipher.Writer.Dowrite`, `bin/ed/ed.c:1558`).
- `malloc` pads in 32 bits: a request gets too small a block exactly if it is above 2^32 - 8 bytes, and the shift that
  computes the amount asked of `sbrk` is undefined exactly for those above 2^30 - 8 and up to 2^32 - 8
  (`CshBucket.RequestIff`).
- `Gmatch` never tries the empty rest behind a star that is not last, and a quoted character in a class, but at an end
  of a range, stands for nothing (`CshMatch.GmatchExact`, `CshMatch.QuotedOne`).
- `globbrace` does not notice that exactly one brace stays open: with a comma behind it (`{a,b`) it copies what stands
  behind the end of the word, without one (`{a`) it returns an empty vector, and globexpand reads on behind that. Where
  more stay open it reports a missing brace (`CshBrace.ExpandIff`).
- The search for a brace looks into brackets: `[{]a` and `{a,[{]b}` are words with closed brackets, and braces outside
  them that match, that do not expand (`CshBrace.BraceInBrackets`, `CshBrace.MatchedExpandIff`).
- The alias pass does not look at the last command of a list in which parentheses stay open
  (`CshAlias.SyntaxFinds`, `bin/csh/parse.c:147-149`).
- padd prints no &, |& or >! and no empty side of a list: a command line comes back from what is printed for it exactly
  if it has none of these and no file called ! (`CshRoundTrip.ReprintIff`).
- The command hash hides a command in an absolute directory that can be searched and not read, unless its bit happens
  to be set (`CshHash.HashedSearch`).
- conv=unblock leaves its counter at -1: characters behind an interior run of spaces come out wrong
  (`DdConv.EmittedIff`, `bin/dd/dd.c:730`).

## Model

| member | source | states |
|---|---|---|
| `EdRing.Requeue` | bin/ed/ed.h:124-125 | links the two nodes to each other and touches no other link |
| `EdRing.Insqueue` | bin/ed/ed.h:127-132 | puts a node behind its predecessor: a ring with the node inserted there stays a ring |
| `EdRing.Unlink` | bin/ed/ed.c:1346-1361 | taking a block out leaves a ring without it, joins its two neighbours, and the block keeps its links to them |
| `EdRing.Relink` | bin/ed/ed.c:1617-1651 | a detached block that points at two neighbours is put back between them: the larger ring is restored link by link |
| `EdRing.SpliceDetached` | bin/ed/ed.c:1346-1361 | a block of a ring points at the two nodes that become neighbours without it |
| `EdRing.SpliceNoDup` | bin/ed/ed.c:1346-1361 | a ring without repetitions falls into two parts that share no node |
| `EdBuffer.Editor.constructor` | bin/ed/ed.c:167 | the empty buffer: a ring of the sentinel alone with no history |
| `EdBuffer.Editor.GetPtr` | bin/ed/buf.c:151-180 | returns the n-th node of the ring for every n, clamped into 0..lastln, leaves the cached pair (lp, on) right, and follows at most half of lastln links, plus one |
| `EdBuffer.Editor.GetRange` | bin/ed/ed.c:1896-1907 | counts the nodes of a chain from its first to its last |
| `EdBuffer.Editor.GetUptr` | bin/ed/ed.c:1586-1614 | pushes one record that names the first and the last node of the block |
| `EdBuffer.Editor.LpQueue` | bin/ed/buf.c:134-145 | inserts one new node behind the current line, counts it, makes it current, and leaves the cursor valid |
| `EdBuffer.Editor.AddLine` | bin/ed/buf.c:134-145 | the line is inserted and recorded, in a new record or by letting the last one grow, and the history stays replayable unless usw is set |
| `EdBuffer.Editor.AddFirst` | bin/ed/ed.c:1092-1099 | the new line is in the buffer, and its record is taken for one of lines that are out exactly if usw is set |
| `EdBuffer.Editor.Del` | bin/ed/ed.c:1346-1361 | removes exactly the lines from..to, makes the line in front current, and records the block, which is taken for one that is out exactly if usw is clear; then the history stays replayable |
| `EdBuffer.Editor.Replay` | bin/ed/ed.c:1617-1651 | one record, replayed in either direction, turns the ring of one point of the history into that of the next |
| `EdBuffer.Editor.ReplayAll` | bin/ed/ed.c:1617-1651 | the whole stack replayed backwards gives the ring before all edits, forwards the ring behind them |
| `EdBuffer.Editor.Undo` | bin/ed/ed.c:1617-1651 | moves the buffer to the other end of its history, which Valid pins to a ring, swaps curln and ucurln, and does nothing where there is no record |
| `EdBuffer.Editor.TakenRight` | bin/ed/ed.c:1629-1645 | where every edit was made with usw clear, a record that undo and ureset take for one of lines that are out is |
| `EdBuffer.HistoryPush` | bin/ed/ed.c:1586-1614 | a recorded edit extends a history of rings that one block each tells apart |
| `EdBuffer.CoveredNext` | bin/ed/ed.c:1655-1670 | every node the editor knows occurs at some point of the history |
| `EdCommands.Append` | bin/ed/ed.c:1066-1102 | the new lines, unmarked, stand behind line n in order, the last of them is current, and an edit is recorded exactly if there are any |
| `EdCommands.Transfer` | bin/ed/ed.c:1310-1343 | a copy of lines line1..line2 stands behind num, for every num, also inside the range; the copies are new nodes without marks |
| `EdCommands.CopyThenDelete` | bin/ed/ed.c:706-726 | copying a block behind num and deleting the original relocates the block |
| `EdCommands.MoveText` | bin/ed/ed.c:706-726 | what copying and deleting makes of the cells is the text with the block relocated |
| `EdCommands.Move` | bin/ed/ed.c:706-726 | the lines are those before with the block relocated, same number of lines; curln is on the last moved line exactly if not line1 == num == line2, and names a line at all exactly if that is not also the last line |
| `EdCommands.Delete` | bin/ed/ed.c:1346-1361 | the text without the lines from..to |
| `EdCommands.UReset` | bin/ed/ed.c:1655-1670 | frees exactly the nodes that are not in the buffer, each of them once, and forgets the history |
| `EdCommands.LostNode` | bin/ed/ed.c:1655-1670 | a node that was in the buffer and is not lies in a block that is out, so that ureset finds it |
| `EdCommands.OutBlocksApart` | bin/ed/ed.c:1655-1670 | two blocks that are out of the buffer share no node, so that none is freed twice |
| `EdCommands.FreeBlock` | bin/ed/ed.c:1662-1666 | the loop frees the nodes of the block and reads the next link before a node goes |
| `EdRewrite.Gather` | bin/ed/ed.c:1285-1294 | collects the text of the range, and fails exactly if it does not fit in the line buffer |
| `EdRewrite.Join` | bin/ed/ed.c:1272-1307 | the range becomes one line with the text of all, or nothing changes where that is too long |
| `EdRewrite.Replace` | bin/ed/ed.c:1186-1198 | one line gives way to a list of lines, the last of which is current |
| `EdRewrite.Subst` | bin/ed/ed.c:1169-1210 | every line of the range is rewritten once by what the substitution makes of its text, however many lines that gives, up to the first error; lines that are not rewritten keep their marks |
| `EdRewrite.RewriteNext` | bin/ed/ed.c:1180-1204 | the position of the next line to rewrite follows from the lines written so far |
| `EdGlobal.RingDictates` | bin/ed/ed.h:124-132 | all links of a valid buffer are those that its sequence of nodes dictates |
| `EdGlobal.EditThenUndo` | bin/ed/ed.c:1617-1651 | after ureset and any run of edits, undo restores every line, node and link of the ring, lastln and curln |
| `EdGlobal.UndoTwice` | bin/ed/ed.c:1617-1651 | a second undo takes the first back, links and line numbers included |
| `EdGlobal.Run` | bin/ed/ed.c:521-929 | every list of a, i, c, d, t, m, j, s and u, with addresses that depend on lines and line numbers, does to text, marks, curln and the state of u what the list of steps does, up to its first error; whatever usw and the stack are, all links and records lead to known nodes, no node is marked anew, and the list ends unless one of its commands follows links for ever; without a u the buffer stays valid and its history replayable |
| `EdGlobal.Exec` | bin/ed/ed.c:521-929 | one such command; on a buffer in order it succeeds or fails, and leaves text, marks, curln and the state of u, as the step on the text says; only a u on a stack with a record made while usw was set may leave the buffer in no order |
| `EdGlobal.ExecLoose` | bin/ed/ed.c:521-929 | the same commands on a buffer in no order: links and records still lead to known nodes, and no node is marked anew |
| `EdGlobal.TwoUndone` | bin/ed/ed.c:1617-1651 | d, u, d and the u that finds the record made while usw was set: the links pass over two lines, lastln is one below the lines left, and the next line points back at one that is out |
| `EdGlobal.DeleteUndo` | bin/ed/ed.c:1617-1651 | after d and u the ring is the old one, usw is set and the record is still there |
| `EdLoose.GetPtr` | bin/ed/buf.c:151-180 | counts its way along whatever links there are, to a known node |
| `EdLoose.GetRange` | bin/ed/ed.c:1896-1907 | counts the nodes between two ends, or finds a set of nodes that the links do not lead out of and that the other end is not in, so that the loop does not end |
| `EdLoose.Replay` | bin/ed/ed.c:1629-1645 | on any stack: taking a block out writes just the two links of its old neighbours |
| `EdLoose.Undo` | bin/ed/ed.c:1617-1651 | on any stack: replays every record, swaps the line numbers and turns usw round, or does nothing where there is no record |
| `EdGlobal.CkGlob` | bin/ed/ed.c:383-417 | marks exactly the lines of the range that match, or do not for an inverted global |
| `EdGlobal.FirstActive` | bin/ed/ed.c:435-439 | finds the first marked line of the buffer if there is one |
| `EdGlobal.Round` | bin/ed/ed.c:440-484 | in a buffer in order a round is the run of the list from the text without the mark of line lc, which is current; in any buffer it takes the mark from one node, and no command gives one |
| `EdGlobal.DoGlob` | bin/ed/ed.c:422-491 | for every list of edits the text and curln that the whole command on the text comes to, which is one step for undo; with u's too, whatever they make of the buffer: ends unless a command follows links for ever, starts at most once at each line that was marked and at no other, and marks none; as long as the buffer is in order it leaves no marked line if every command succeeded |
| `EdGlobal.GlobalDelete` | bin/ed/ed.c:383-491 | g/re/d and v/re/d leave exactly the lines outside the range or not selected, in their order |
| `EdGlobal.NextActive` | bin/ed/ed.c:435-439 | the scan finds the first marked line of the text |
| `EdGlobal.ExecUndo` | bin/ed/ed.c:1617-1651 | u exchanges text and line number with those at the other end of the history, or fails where nothing is recorded |
| `EdText.EffectMarks` | bin/ed/ed.c:521-929 | no command marks a line, so that a global command ends |
| `EdText.PlayAlone` | bin/ed/ed.c:521-929 | a list without u goes by the text and the current line alone |
| `EdLaws.AppendPlaces` | bin/ed/ed.c:590-595 | a: the lines stand behind the line it names, all others in place, the last new one is current |
| `EdLaws.InsertPlaces` | bin/ed/ed.c:675-680 | i: the line it names stands directly behind the new lines; at address 0 they stand behind the last line |
| `EdLaws.ChangePlaces` | bin/ed/ed.c:596-603 | c: the lines stand in place of those it names, all others in place |
| `EdLaws.DeletePlaces` | bin/ed/ed.c:604-614 | d: exactly the lines it names are gone, and the line behind them is current, or the last one if there is none |
| `EdLaws.CopyPlaces` | bin/ed/ed.c:859-868 | t: a copy of the lines stands behind the target, all others in place, the last copy is current |
| `EdLaws.MovePlaces` | bin/ed/ed.c:706-726 | m: the text with the lines relocated, a permutation of the old one; refused for a target inside the lines |
| `EdLaws.JoinPlaces` | bin/ed/ed.c:681-688 | j: one line with the texts of all in place of them, or nothing where that is too long |
| `EdLaws.CatParts` | bin/ed/ed.c:1285-1294 | the texts stand in the joined line one behind the other, in order |
| `EdLaws.SubstPlaces` | bin/ed/ed.c:1169-1210 | s: what was made of each line stands behind what was made of the lines before it, up to the first one that fails; the rest of the text is untouched |
| `EdLaws.EffectIdle` | bin/ed/ed.c:521-929 | a command that records no edit changes no text |
| `EdLaws.PlayThen` | bin/ed/ed.c:473-484 | a list is its first part and then, unless that stops, the rest |
| `EdLaws.RunUndone` | bin/ed/ed.c:1617-1651 | u takes any run of edits back, complete or not, and a second u brings it again; u fails only where the run changed no text |
| `EdLaws.GlobDelete` | bin/ed/ed.c:422-491 | g with d at the current line leaves exactly the lines that were not marked, in their order |
| `EdLaws.GlobReverse` | bin/ed/ed.c:422-491 | g with m0 at the current line brings the marked lines to the front in reverse order, all others in their order |
| `EdCipher.DecryptEncrypt` | bin/ed/cbc.c:305-380 | decrypting what was encrypted gives the text back, for every padding and every invertible block cipher |
| `EdCipher.EncryptLength` | bin/ed/ed.c:1568-1571 | the cipher text is as long as the next multiple of 8 strictly above the length of the text |
| `EdCipher.ChainEncrypt` | bin/ed/cbc.c:305-338 | encrypting block by block and a last block is encrypting the whole text |
| `EdCipher.XorBitsDiffer` | bin/ed/cbc.c:315-317 | bit by bit, the exclusive or says where the two differ |
| `EdCipher.Chained` | bin/ed/cbc.c:305-338 | each block of the cipher text is the encryption of the exclusive or of the block of the padded text with the block of the cipher text before it, the first one with the initial vector |
| `EdCipher.Writer.Desputc` | bin/ed/ed.c:1747-1766 | takes one character into the stream, encrypting a block when the next character comes; the byte 255 completes the cipher text, as EOF does |
| `EdCipher.Writer.Flush` | bin/ed/ed.c:1747-1766 | the EOF flush completes the cipher text of everything written |
| `EdCipher.Writer.Dowrite` | bin/ed/ed.c:1526-1575 | writes exactly the texts of seven-bit characters; then the file is the cipher text of the lines, and the size reported is its length |
| `EdCipher.Reader.Cbcdec` | bin/ed/cbc.c:343-380 | decrypts one block, and of the last as many characters as its count says; an incomplete block or a bad count ends the stream |
| `EdCipher.Reader.Desgetc` | bin/ed/ed.c:1731-1745 | returns the next character of the decrypted text, and EOF behind the last |
| `EdCipher.WriteThenRead` | bin/ed/ed.c:1731-1766 | a text is written exactly if it is seven-bit, and what desgetc then returns from the file is the text |
| `CshName.StrCmp` | bin/csh/str.c:305-323 | the loop computes the sign of the first difference, the end of a string below every character |
| `CshName.LessIsTotalOrder` | bin/csh/set.c:451-452 | first difference, then Strcmp: equal only for equal names, antisymmetric and transitive, so a strict total order |
| `CshName.LessIs` | bin/csh/set.c:451-452 | of two different names the one with the smaller character where they first differ is less, or the one that ends there if both begin alike; beside the empty name the sign of the first character decides |
| `CshName.PrefixPrecedes` | bin/csh/str.c:305-323 | a proper prefix that is not empty is less |
| `CshName.StrcmpTransitive` | bin/csh/str.c:305-323 | Strcmp is transitive although characters are signed |
| `CshTree.FixAvl` | bin/csh/set.c:700-793 | one rotation of any of the four shapes restores exact balance factors, and the height says whether the loop may stop |
| `CshTree.RetraceAvl` | bin/csh/set.c:700-793 | retracing from a hole whose subtree grew or shrank by one makes the whole tree balanced again |
| `CshTree.RetraceInOrder` | bin/csh/set.c:700-793 | retracing moves no entry in the order of names |
| `CshTree.PlugAvl` | bin/csh/set.c:700-793 | a tree is balanced exactly if its part and what is around it are |
| `CshTable.ContentsParts` | bin/csh/set.c:497-523 | inserting an entry in its place sets one key of the table, taking it out removes the key |
| `CshTable.HeightBound` | bin/csh/set.c:700-793 | a table of height h holds at least Fib(h + 2) - 1 entries |
| `CshTable.HeightLogarithmic` | bin/csh/set.c:443-458 | so its height is at most twice the logarithm of its size |
| `CshTable.SizeIsCount` | bin/csh/set.c:443-458 | the size is the number of entries listed in order |
| `CshTable.SortedOrdered` | bin/csh/set.c:443-458 | in a sorted table each name precedes the next one in characters |
| `CshBalance.RLeft` | bin/csh/set.c:672-677 | the macro rotates the linked records as the rotation of the tree says, parent links included |
| `CshBalance.RRight` | bin/csh/set.c:666-671 | the mirror rotation |
| `CshBalance.DoubleRight` | bin/csh/set.c:700-793 | the double rotation of a right heavy node with its three balance factors |
| `CshBalance.DoubleLeft` | bin/csh/set.c:700-793 | the double rotation of a left heavy node |
| `CshBalance.FixRight` | bin/csh/set.c:700-793 | a heavy right side, inserting or deleting, is repaired in the heap as in the tree |
| `CshBalance.FixLeft` | bin/csh/set.c:700-793 | the same for a heavy left side |
| `CshBalance.Balance` | bin/csh/set.c:700-793 | the one loop for insertion and deletion turns the linked tree into the retraced one and stops early where it may |
| `CshSet.Adrof1` | bin/csh/set.c:443-458 | finds the record of the name or null, in at most as many steps as the table is high, a logarithm of its size |
| `CshSet.SearchFound` | bin/csh/set.c:443-458 | where the search meets a record, that is the record of the name |
| `CshSet.SearchAbsent` | bin/csh/set.c:443-458 | where the search ends at nothing, the name is not in the table and belongs there |
| `CshSet.SetQ` | bin/csh/set.c:497-523 | the table stays sorted, each name in front of the next one in characters, exactly balanced and properly linked, and its contents are the old map with one key set |
| `CshSet.Predecessor` | bin/csh/set.c:570-610 | the record before one with two children in the order of names |
| `CshSet.CopyPure` | bin/csh/set.c:570-610 | copying the predecessor into a record and removing the predecessor removes just the entry of the record |
| `CshSet.Splice` | bin/csh/set.c:570-610 | a record with at most one child gives way to the child, and the tree is rebalanced from there |
| `CshSet.UnsetV1` | bin/csh/set.c:570-610 | the table stays sorted, each name in front of the next one in characters, exactly balanced and properly linked, loses exactly the key, and one record is free |
| `CshList.Madrof` | bin/csh/set.c:427-441 | returns the first record in name order that matches, and null only if none does |
| `CshList.UnsetPattern` | bin/csh/set.c:542-557 | removes all variables that match the pattern, counts them, and keeps every other with its value |
| `CshList.Unset1` | bin/csh/set.c:542-557 | for a list of patterns exactly the variables go that match one of them |
| `CshList.Leftmost` | bin/csh/set.c:795-830 | goes down the left links without passing an entry, to the record of the next one |
| `CshList.Climb` | bin/csh/set.c:795-830 | goes up the parent links to the record of the next entry, or to the header behind the last |
| `CshList.Plist` | bin/csh/set.c:795-830 | ends on every table and lists every entry once, each name in front of the next one in characters, by parent links alone |
| `CshJobs.JobTable.constructor` | bin/csh/proc.h:94-103 | the empty table is proper |
| `CshJobs.JobTable.Pgetcurr` | bin/csh/proc.c:1121-1137 | the first stopped job of the list that is neither pp nor current, else the first such job, else null |
| `CshJobs.JobTable.Pclrcurr` | bin/csh/proc.c:407-423 | afterwards the job is neither current nor previous, and who takes its place is determined |
| `CshJobs.JobTable.Leader` | bin/csh/proc.c:384-385 | the walk along the friends ends at the leader of the ring |
| `CshJobs.JobTable.Zero` | bin/csh/proc.c:389-394 | the loop round the ring zeroes exactly the processes of the job |
| `CshJobs.JobTable.Pflush` | bin/csh/proc.c:373-401 | flushes the whole job and no other, forgets it as a recent job, recomputes pmaxindex, and keeps the table proper; a second time it does nothing |
| `CshJobs.JobTable.UnusedIndex` | bin/csh/proc.c:474-489 | ends, with the smallest index that is not in use |
| `CshJobs.JobTable.Join` | bin/csh/proc.c:457-467 | a new process goes to the end of the ring of its job, and all rings stay closed |
| `CshJobs.JobTable.Palloc` | bin/csh/proc.c:434-498 | one new process, in the current job or as leader of a new one with an index that is free, and the table stays proper |
| `CshJobs.StateGrows` | bin/csh/proc.c:434-498 | process numbers and job indices stay unique when a process with a fresh number is added |
| `CshJobs.JobTable.MarkStopped` | bin/csh/proc.c:155-159 | the loop round the ring marks exactly the stopped processes of the job as reported |
| `CshJobs.JobTable.JobFlags` | bin/csh/proc.c:139-148 | the union of the flags of all processes of the job, and of no other |
| `CshJobs.JobTable.Report` | bin/csh/proc.c:154-193 | a job that no longer runs becomes current if it stopped and ceases to be recent if not; in the background it is flushed or noted |
| `CshJobs.JobTable.Pchild` | bin/csh/proc.c:80-195 | of the flags of the process exactly the one that the event names is added (exited with 0 or not, interrupted, killed by another signal, stopped), PDUMPED exactly for a core dump, and PRUNNING is gone; the whole effect on the other flags, on recent jobs and indices; an unknown process changes nothing; the table stays proper |
| `CshJobs.EventTold` | bin/csh/proc.c:111-138 | of stopped, interrupted, signaled and the two ways to exit the event sets one, and no flag that it does not concern changes |
| `CshJobs.JobTable.Pstart` | bin/csh/proc.c:1022-1052 | every process of the job that is not over runs, with no trace of a stop, in the foreground or not as asked, and a job sent to the background is no longer recent |
| `CshJobs.JobTable.TakeOff` | bin/csh/proc.c:231-240 | unlinks one process of the list and no other |
| `CshJobs.JobTable.Sweep` | bin/csh/proc.c:231-240 | exactly the flushed processes leave the list, the others keep their order, and no ring of a live job loses a process |
| `CshJobs.LiveTable` | bin/csh/proc.c:231-240 | as jobs are flushed as a whole, the table is proper without the flushed processes |
| `CshJobs.JobTable.Proper` | bin/csh/proc.c:434-498 | two live processes are on one ring exactly if they have the same index, a ring has one leader, pmaxindex is the largest index, current and previous job are different live leaders |
| `CshJobs.JobTable.Exec` | bin/csh/proc.c:80-498 | every step keeps the table proper |
| `CshJobs.JobTable.Run` | bin/csh/proc.c:80-498 | every run of spawning, child events, flushing, starting and sweeping keeps the table proper |
| `CshPower.LogPow` | bin/csh/alloc.c:166-170 | the loop count is the binary logarithm, rounded down |
| `CshPower.LogIs` | bin/csh/alloc.c:166-170 | the bounds determine it |
| `CshBucket.Bucket` | bin/csh/alloc.c:166-170 | the loop over shiftr finds the bucket, below 30 for every 32-bit size |
| `CshBucket.PaddedIff` | bin/csh/alloc.c:165-170 | in 32-bit arithmetic the padded size holds header and request exactly if the request is at most 2^32 - 16 bytes |
| `CshBucket.Wraps` | bin/csh/alloc.c:165-170 | a request for 2^32 - 1 bytes is padded to a block of 8 |
| `CshBucket.BlockFits` | bin/csh/alloc.c:165-170 | a bucket is the one that malloc chooses exactly if its block holds the padded request and is less than twice as large |
| `CshBucket.ShiftIff` | bin/csh/alloc.c:241-245 | the shift of morecore is defined exactly for padded sizes from 8 up to 2^30 |
| `CshBucket.PadsTo` | bin/csh/alloc.c:165-166 | what a request is padded to: the sum with the header wraps round for the last 8 sizes, and rounding up for the 7 in front of them |
| `CshBucket.RequestIff` | bin/csh/alloc.c:165-245 | the shift of morecore is undefined exactly for requests above 2^30 - 8 and up to 2^32 - 8 bytes, and the block is too small exactly above that |
| `CshBucket.InPlaceIff` | bin/csh/alloc.c:382-386 | realloc keeps a block exactly if malloc would choose its bucket and the request does not fill it, or if the request fills half of it |
| `CshAlloc.FreeHeader` | bin/csh/alloc.c:277-300 | the header of a free block, a pointer, never carries the magic number, so that free tells free blocks from blocks in use |
| `CshAlloc.BlocksApart` | bin/csh/alloc.c:245-267 | the blocks cut from new memory do not overlap, are aligned and fill it |
| `CshAlloc.Take` | bin/csh/alloc.c:190-203 | taking the head of a free list keeps the invariant of the store |
| `CshAlloc.Give` | bin/csh/alloc.c:298-302 | putting a block back keeps it |
| `CshAlloc.Carve` | bin/csh/alloc.c:245-267 | cutting fresh memory for an empty bucket keeps it |
| `CshAlloc.Conserved` | bin/csh/alloc.c:126-130 | for every size the mallocs not yet freed and the free list add up to the blocks that were cut |
| `CshAlloc.Allocator.Morecore` | bin/csh/alloc.c:216-268 | cuts only new blocks of the bucket from aligned memory, or changes no block where there is none, and then leaves a memtop below the requested size |
| `CshAlloc.Allocator.Pop` | bin/csh/alloc.c:190-203 | returns a block that was free and marks it in use |
| `CshAlloc.Allocator.Malloc` | bin/csh/alloc.c:151-210 | a block that was not in use, large enough for the padded request and less than twice as large, or 0 with nothing changed in use |
| `CshAlloc.Allocator.Free` | bin/csh/alloc.c:277-308 | a block in use at or below memtop goes to its free list; null, a block that is free already and any address above memtop or below membot change nothing |
| `CshAlloc.Allocator.Realloc` | bin/csh/alloc.c:349-399 | the old address exactly if the in-place test holds, which is enough room; else a new block, and the old one is free |
| `CshAlloc.Allocator.Owner` | bin/csh/alloc.c:126-130 | no byte belongs to two blocks, in use or free |
| `CshAlloc.Allocator.Accounts` | bin/csh/alloc.c:126-130 | free lists have an end and no repetition, and nmalloc and the list account for all blocks |
| `CshAlloc.Allocator.BelowBreak` | bin/csh/alloc.c:286-288 | after a successful morecore free turns no block away |
| `CshAlloc.Allocator.FailThenFree` | bin/csh/alloc.c:245-250 | after a failed morecore free turns away exactly the blocks at or above the size that was asked for |
| `CshAlloc.Allocator.Run` | bin/csh/alloc.c:151-308 | every run of malloc, of free on returned pointers, and of realloc on those in use, keeps all of this |
| `CshAlias.Separator` | bin/csh/parse.c:112-147 | the scan of asyn0 finds the first separator at depth 0, or a parenthesis too many, or the depth at the end |
| `CshAlias.PassSyntax` | bin/csh/parse.c:99-110 | the pass over a list ends with the specified result: a refusal, or the first command whose first word is an alias |
| `CshAlias.Pass0` | bin/csh/parse.c:112-150 | the same from the first word of a command on |
| `CshAlias.Pass3` | bin/csh/parse.c:152-175 | one command: the words between its first and its last parenthesis, or its first word |
| `CshAlias.SyntaxFinds` | bin/csh/parse.c:99-175 | the pass says that no command begins with an alias exactly where none does, of all commands behind a separator at depth 0 and likewise inside the parentheses of each; else it names the first one that does, with all its words; it does not look at a last command in which parentheses stay open |
| `CshAlias.AliasedRun` | bin/csh/parse.c:79-97 | the words come out of a run of expansions, each of the first command that begins with an alias, and only where none is left, or the expansions run out or fail |
| `CshHeads.HeadSplit` | bin/csh/parse.c:112-150 | the commands of a list with a separator at depth 0 are those in front of the first one and those behind it |
| `CshHeads.HeadWhole` | bin/csh/parse.c:112-175 | those of a list without one are its own, or those between its first and its last parenthesis |
| `CshAlias.CutBelow` | bin/csh/parse.c:112-150 | the scan refuses a list only if it closes a parenthesis that is not open, and what it passes over closes none such |
| `CshAlias.PassedBelow` | bin/csh/parse.c:99-150 | words that pass close no parenthesis that is not open |
| `CshAlias.AliasedBelow` | bin/csh/parse.c:79-97 | whatever the aliases expand to, the words that come out pass |
| `CshAlias.Alias` | bin/csh/parse.c:79-97 | the passes end after 20 expansions at most, with words that pass and in which no command that is looked at begins with an alias, a refusal, a loop or an error of the lexer |
| `CshSyntax.FindNested` | bin/csh/parse.c:316-475 | what the scan for an operator finds stands at depth 0 between two properly nested parts |
| `CshSyntax.FindAmpNested` | bin/csh/parse.c:248-308 | where syn0 reports no error, the parts it goes on with are properly nested |
| `CshSyntax.Delimited` | bin/csh/parse.c:572-659 | without an error, the parenthesised part that syn3 hands to syn0 is delimited by two matching places |
| `CshSyntax.FindAmpBelow` | bin/csh/parse.c:257-268 | in words that have passed alias syn0 meets no unmatched closing parenthesis |
| `CshSyntax.TracksWord` | bin/csh/parse.c:572-653 | also after an error, between lp and rp the scan passes over properly nested words |
| `CshSyntax.TracksPast` | bin/csh/parse.c:591-640 | a redirection in error may swallow parentheses, but the depth never exceeds the true one |
| `CshSyntax.CountNonneg` | bin/csh/parse.c:524-562 | the count of the first scan is never negative, so its correction to 0 never applies |
| `CshSyntax.ScanStep` | bin/csh/parse.c:524-653 | whatever the second scan of syn3 stores, the first has counted |
| `CshSyntax.RedirectMeans` | bin/csh/parse.c:591-640 | the file, the side and the flags of a redirection, of which >! has one of its own, and what each error is reported for |
| `CshParser.Parser.Syntax` | bin/csh/parse.c:229-241 | the loop and the recursion end on all words that have passed alias, whatever errors there are, with the specified tree or the specified first error |
| `CshParser.Ampersand` | bin/csh/parse.c:248-308 | the scan of syn0 finds the first & of its own at depth 0, or that parentheses stay open |
| `CshParser.AmpParts` | bin/csh/parse.c:257-307 | of words that have passed alias, syn0 gives syn1 only properly nested ones, and syntax a rest that has passed too |
| `CshParser.Parser.Syn0` | bin/csh/parse.c:248-308 | refines the specified parse of a list with background commands, and goes on after an error, of which the first is kept |
| `CshParse.BackgroundRuns` | bin/csh/parse.c:286-298 | what & makes of a command has both flags, whether it is a command, a parenthesised one or a pipe, and is else the command that it was; a list, && or &#124;&#124; is put in a subshell |
| `CshParser.Scanned` | bin/csh/parse.c:316-475 | the loop common to four levels finds the first operator at depth 0 |
| `CshParser.Parser.Syn1` | bin/csh/parse.c:316-350 | refines it at the level of ;, of nested words only, and never returns null |
| `CshParser.Parser.Syn1a` | bin/csh/parse.c:357-391 | refines it at the level of &#124;&#124; |
| `CshParser.Parser.Syn1b` | bin/csh/parse.c:398-430 | refines it at the level of && |
| `CshParser.Parser.Syn2` | bin/csh/parse.c:438-475 | refines it at the level of &#124; |
| `CshParser.Parser.Redirected` | bin/csh/parse.c:591-640 | one redirection with its errors, flags and file, and how far it goes in error |
| `CshParser.Parser.Fill` | bin/csh/parse.c:572-653 | the second scan goes on after an error, never writes beyond the vector that the first has measured, and leaves lp and rp around nested words |
| `CshParser.Parser.Syn3` | bin/csh/parse.c:489-666 | refines the parse of a simple or parenthesised command, and calls syn0 for nested words only, errors or not |
| `CshParser.Process` | bin/csh/csh.c:991-998 | aliases and parser end for every list of words and every table of aliases, with the tree of words in which no command that is looked at begins with an alias, or with the first error |
| `CshPrint.TameShaped` | bin/csh/proc.c:500-557 | what is printed for any tree that the parser builds is nested, has no & of its own and no operator above its level |
| `CshPrint.ScanWords` | bin/csh/parse.c:572-653 | the second scan keeps the words of a command, parentheses of a builtin included |
| `CshPrint.ScanIo` | bin/csh/proc.c:546-556 | the redirections that padd prints are read back as they were |
| `CshPrint.CommandAgain` | bin/csh/parse.c:489-666 | a simple command comes back from its words |
| `CshPrint.ParenAgain` | bin/csh/parse.c:489-666 | a parenthesised command comes back if its inside does |
| `CshPrint.Again0` | bin/csh/parse.c:229-666 | every faithful tree comes back from the words printed for it, in every context that allows it |
| `CshPrint.RoundTrip` | bin/csh/proc.c:500-557 | parsing the words that padd prints for a tree of commands, parentheses, redirections, &#124;, &&, &#124;&#124; and ; gives the tree back |
| `CshPrint.BindsTighter` | bin/csh/parse.c:310-475 | &#124; binds tighter than &&, which binds tighter than &#124;&#124;, which binds tighter than ;, on either side |
| `CshReprint.Faithful0` | bin/csh/parse.c:229-666 | whatever the parser accepts is such a tree unless it holds a background command, an empty side, &#124;&, >! or a file called ! |
| `CshReprint.Reprint` | bin/csh/proc.c:500-557 | for every accepted list of words whose tree is lossless, printing and parsing it again gives the same tree |
| `CshReprint.Shaped0` | bin/csh/parse.c:229-666 | whatever the parser accepts is of the shape that its levels ask for, background commands, empty sides and all redirections included |
| `CshRoundTrip.CommandBack` | bin/csh/proc.c:500-557 | a command that comes back has no &, no >! and no file called ! |
| `CshRoundTrip.BackAll` | bin/csh/parse.c:229-666 | at every level a tree of such a shape that comes back is lossless |
| `CshRoundTrip.ReprintIff` | bin/csh/proc.c:500-557 | a tree that the parser accepts comes back from the words printed for it exactly if it is lossless, or there is no command at all |
| `CshNumber.GetnPutn` | bin/csh/set.c:350-414 | getn reads back what putn writes, for every int |
| `CshNumber.GetnReads` | bin/csh/set.c:392-414 | a string of digits, with +, -, +- or nothing in front, is read as the int that its value wraps round to |
| `CshNumber.GetnRefuses` | bin/csh/set.c:392-414 | and nothing else is read |
| `CshNumber.PutNumber` | bin/csh/set.c:350-390 | putn writes the decimal digits, the least int by its own case included |
| `CshNumber.GetNumber` | bin/csh/set.c:392-414 | the loop reads the number, wrapping round in between, and refuses anything else |
| `CshExpr.SameStop` | bin/csh/exp.c:95-595 | words accepted in evaluating and in ignoring mode are read to the same place in both, at every level |
| `CshEvaluator.Evaluator.Exp0` | bin/csh/exp.c:95-116 | refines the specified value and place at the level of &#124;&#124;, ignoring the right side behind a true left one |
| `CshEvaluator.Evaluator.Exp1` | bin/csh/exp.c:118-139 | the level of && |
| `CshEvaluator.Evaluator.Exp2` | bin/csh/exp.c:141-162 | the level of &#124; |
| `CshEvaluator.Evaluator.Exp2a` | bin/csh/exp.c:164-185 | the level of ^ |
| `CshEvaluator.Evaluator.Exp2b` | bin/csh/exp.c:187-208 | the level of & |
| `CshEvaluator.Evaluator.Exp2c` | bin/csh/exp.c:210-256 | the comparisons for equality, of strings |
| `CshEvaluator.Evaluator.Exp3` | bin/csh/exp.c:258-302 | the relations, of numbers, which associate to the right |
| `CshEvaluator.Evaluator.Exp3a` | bin/csh/exp.c:304-332 | the shifts |
| `CshEvaluator.Evaluator.Exp4` | bin/csh/exp.c:334-369 | + and -, which associate to the right |
| `CshEvaluator.Evaluator.Exp5` | bin/csh/exp.c:371-416 | *, / and %, with errors for a zero divisor unless ignored |
| `CshEvaluator.Evaluator.Sub6` | bin/csh/exp.c:418-494 | !, ~, groups, commands in braces, missing operands, file inquiries and words |
| `CshEvaluator.Evaluator.Operand` | bin/csh/exp.c:493-595 | a file inquiry with its errors, or a word after globbing |
| `CshExprTree.OperatorAt` | bin/csh/exp.c:628-674 | behind a left side its operator is found at its level and at none above |
| `CshExprTree.Combined` | bin/csh/exp.c:210-416 | the decimal strings of two numbers are combined to that of the result |
| `CshExprTree.Shown` | bin/csh/exp.c:95-595 | at every level and in both modes a printed tree is read to its end with its value |
| `CshExprTree.ExpOfTree` | bin/csh/exp.c:88-116 | the words of a tree of ints: all are consumed and the value is that of the tree, or the error of a division by zero that is reached |
| `CshExprTree.TighterFirst` | bin/csh/exp.c:95-416 | of two operators the one that binds tighter, in the order &#124;&#124;, &&, &#124;, ^, &, equality, relations, shifts, sums, products, takes the number between them |
| `CshExprTree.RightFirst` | bin/csh/exp.c:95-416 | of two that bind as tight the right one takes it |
| `CshArith.BitOperators` | bin/csh/exp.c:141-208 | for all ints and every bit, the sign bit included, the bit of the result is the or, the exclusive or, or the and of the two bits |
| `CshArith.BitNeutral` | bin/csh/exp.c:141-208 | 0 is neutral for the or and the exclusive or, -1 for the and |
| `CshArith.OrAndSum` | bin/csh/exp.c:141-208 | the or and the and of two ints add up to their sum |
| `CshArith.Complement` | bin/csh/exp.c:418-494 | ~ turns every bit round |
| `CshArith.Sums` | bin/csh/exp.c:334-416 | sum, difference and product are those of the ints, wrapped round |
| `CshArith.Quotients` | bin/csh/exp.c:371-416 | quotient times divisor plus remainder is the dividend, the remainder is smaller than the divisor and has the sign of the dividend; a zero divisor is an error |
| `CshArith.Comparisons` | bin/csh/exp.c:210-302 | 1 exactly if the comparison holds, else 0 |
| `CshMatch.SaysStrict` | bin/csh/glob.c:735-788 | Gmatch decides the language of the pattern with ?* for two or more stars at its end, classes as it takes them, for every pattern with closed brackets |
| `CshMatch.GmatchExact` | bin/csh/glob.c:735-788 | Gmatch is never true outside the language of the pattern, in which a quoted character of a class denotes itself, and decides it exactly if the pattern does not end in two stars and every quoted character of a class is one that Gmatch takes the class to hold, or some class is empty |
| `CshMatch.LangMeant` | bin/csh/glob.c:760-780 | what Gmatch takes the classes to hold they denote, and conversely if no quoted character stands alone in them |
| `CshMatch.Shorter` | bin/csh/glob.c:735-788 | beside every match of a pattern that ends in two stars there is a shorter text of its language |
| `CshMatch.Missed` | bin/csh/glob.c:735-788 | and so one that Gmatch misses |
| `CshMatch.Unknown` | bin/csh/glob.c:760-780 | a pattern with a character unknown to Gmatch in a class has a text that Gmatch misses, with nothing for its stars |
| `CshMatch.Fertile` | bin/csh/glob.c:760-780 | a pattern without an empty class matches some text |
| `CshMatch.TwoStars` | bin/csh/glob.c:735-788 | two stars do not match the empty text |
| `CshMatch.QuotedOne` | bin/csh/glob.c:774-775 | a class of one quoted character does not match the character |
| `CshMatch.Class` | bin/csh/glob.c:760-780 | the loop over a class tells whether it holds the character and where it ends |
| `CshMatch.Gmatch` | bin/csh/glob.c:735-788 | the loops and the recursion end and compute what is specified |
| `CshBrace.PartsWithin` | bin/csh/glob.c:165-206 | the parts between the commas are stretches of the word inside the brace |
| `CshBrace.Fewer` | bin/csh/glob.c:123-210 | every word that globbrace makes has fewer braces and is shorter, so it fits where the word did |
| `CshBrace.GlobbraceWords` | bin/csh/glob.c:165-207 | the words from left to right: the h-th has the h-th of the parts for the brace, cut exactly at the commas that are in no further braces or brackets |
| `CshBrace.FindPartner` | bin/csh/glob.c:141-163 | finds the closing brace, or what is missing |
| `CshBrace.CutParts` | bin/csh/glob.c:165-207 | the words around the parts, in order |
| `CshBrace.GlobBrace` | bin/csh/glob.c:123-210 | refines the specified split of a word |
| `CshBrace.PartnerDepth` | bin/csh/glob.c:141-163 | what the first scan comes to tells whether no brace, one brace or more stay open |
| `CshBrace.PartsClosed` | bin/csh/glob.c:165-207 | each part closes the braces and brackets that it opens |
| `CshBrace.ExpandIff` | bin/csh/glob.c:262-307 | a word with tidy brackets behind its first brace expands exactly if no brace stays open; where one does that is not noticed, where more do it is an error |
| `CshBrace.TidyExpandIff` | bin/csh/glob.c:262-307 | so for every word with closed brackets that hold no opening brace, in particular without brackets |
| `CshBrace.BraceInBrackets` | bin/csh/glob.c:138-163 | a word whose first brace is in brackets expands exactly if what follows the brackets closes one brace too many |
| `CshBrace.MatchedExpandIff` | bin/csh/glob.c:262-307 | a word with closed brackets without a closing brace in them, whose braces outside brackets match, expands exactly if no bracket holds an opening brace |
| `CshBrace.PartsSteps` | bin/csh/glob.c:165-207 | the parts of such a word are such words, and one of them holds a brace in brackets if the stretch does |
| `CshBrace.LostInBrackets` | bin/csh/glob.c:138-163 | where its first brace is in brackets, no partner is found |
| `CshBrace.AllConcat` | bin/csh/glob.c:262-307 | the expansion of a list is that of its parts, one behind the other |
| `CshBrace.Round` | bin/csh/glob.c:262-307 | one round of the loop keeps the expansion of what is left and costs one of finitely many rounds |
| `CshBrace.Splice` | bin/csh/glob.c:295-304 | in place, the words take the place of one, and the rest of the vector moves up |
| `CshBrace.Globexpand` | bin/csh/glob.c:262-307 | the loop ends and leaves the concatenation, in order, of the recursive expansion of every word |
| `CshHash.Hashname` | bin/csh/exec.c:436-445 | the loop computes the hash of a name, within the size of the map |
| `CshHash.SetTest` | bin/csh/exec.c:86-93 | setting a bit sets that bit and no other |
| `CshHash.Shell.Bis` | bin/csh/exec.c:86-93 | the same in the map of bytes |
| `CshHash.Shell.Dohash` | bin/csh/exec.c:382-417 | the bits set are exactly those of the names listed in readable absolute components |
| `CshHash.NotHidden` | bin/csh/exec.c:382-417 | a listed name has its bit for its component set, whatever else was hashed |
| `CshHash.SlashTried` | bin/csh/exec.c:137-231 | a name with a slash is looked up in no path: it is tried once, as it is, whatever the paths are, and the hash does not hide it |
| `CshHash.PathTried` | bin/csh/exec.c:179-231 | any other name is tried in every component of the path in order |
| `CshHash.Doexec` | bin/csh/exec.c:137-231 | ends at the first component that can be executed and is not skipped; skipped are absolute ones whose bit is not set; without a path variable nothing is tried but a name that starts with a slash; for an empty path, and for a name with a slash, only the name itself is tried |
| `CshHash.HashedSearch` | bin/csh/exec.c:192-231 | after dohash the search ends where the search without the hash ends, exactly if that component is not absolute or its bit is set; so for every path and name over unchanged readable directories |
| `DdConv.BlockSplits` | bin/dd/dd.c:672-697 | the output of conv=block does not depend on how the input is split into reads |
| `DdConv.BlockWhole` | bin/dd/dd.c:672-697 | every line becomes exactly one record of cbs bytes, padded or cut, an unfinished last line too, and r_truncate is the number of lines cut |
| `DdConv.UnblockSplits` | bin/dd/dd.c:703-736 | the output of conv=unblock does not depend on the reads either |
| `DdConv.EmittedIff` | bin/dd/dd.c:703-736 | a record comes out as it is without its trailing spaces exactly if at most one character follows its first run of spaces |
| `DdConv.OffByOne` | bin/dd/dd.c:724-734 | once spaces were put out, the counter is one too low and the next character comes out wrong |
| `DdConv.UnblockRecords` | bin/dd/dd.c:703-736 | records come out one line each, the last with its newline |
| `DdConv.UnblockUnfinished` | bin/dd/dd.c:600-619 | a last record that is not full comes out behind the newline of the one before it and has none of its own |
| `DdConv.KeptIff` | bin/dd/dd.c:672-736 | a line comes back from its record exactly if it does not end in a space and has one gap at most |
| `DdConv.BackIff` | bin/dd/dd.c:672-736 | a text of finished lines of at most cbs bytes comes back from block and unblock exactly if each of its lines does |
| `DdCopy.Dd.OutputChar` | bin/dd/dd.c:72-75 | one more byte is put out, and a full buffer is written |
| `DdCopy.Dd.WriteOutput` | bin/dd/dd.c:740-754 | a full buffer goes out as one block |
| `DdCopy.Dd.CopySimple` | bin/dd/dd.c:643-666 | the bytes are copied, block by block |
| `DdCopy.Dd.CopyWithBlock` | bin/dd/dd.c:672-697 | the loop refines the transducer of conv=block |
| `DdCopy.Dd.CopyWithUnblock` | bin/dd/dd.c:703-736 | the loop refines the transducer of conv=unblock |
| `DdCopy.Dd.OneByte` | bin/dd/dd.c:712-735 | a byte pushed back behind a full record is taken up again in the next |
| `DdCopy.Dd.Finish` | bin/dd/dd.c:607-632 | the last record is completed and the rest of the buffer written |
| `DdCopy.Dd.Copy` | bin/dd/dd.c:485-639 | what is written is the conversion of all bytes read, in whole blocks and one partial block at most, whatever the reads were |

## Left out

- Signals and the masking of interrupts, terminals, fork and exec, file systems: `pchild` is one atomic step given a
  process and its status, directories and the success of `execve` are given values.
- ed's scratch file and regular expressions: a line carries its text, a match is a given predicate and a substitution
  a given function from a line to the lines that replace it; `#ifdef sun` in `subst`, interactive G and V, shell escapes.
- Failure of malloc inside ed (`getuptr`, `lpdup`).
- EdGlobal.DoGlob: `ureset` in front of it is for stacks without a record made while usw was set, for which the code
  frees nodes of the buffer.
- EdGlobal.Run: how addresses are parsed is not modelled, r is a, and the head node counts as a line without text.
- EdCommands.UReset: stacks with a record made while usw was set, for which the code frees nodes of the buffer.
- EdBuffer.Editor.Undo: stacks with such a record; what undo does to the links there is `EdLoose.Replay`.
- EdLoose.Del: of a buffer in no order only what a global command needs is stated, as line numbers name no lines there.
- CshSet.SetQ: a new record gets its value when it is created, where `setq` stores it after balancing; the reader of
  the table sees no difference.
- CshList.Unset1: the pattern match is a given relation between patterns and names; that Gmatch may report an error in
  a pattern is not part of it.
- CshJobs.JobTable.Pchild: the flags PTIME and PPTIME, resource usage, the variable `child` and all printing.
- CshJobs.JobTable.Palloc: the flags PPTIME, PPOU and PDIAG and the text of the command.
- CshJobs.JobTable.Run: process numbers of new processes are different from those of unflushed ones; `psavejob` and
  `prestjob` and the loop of `pnote` are left out, its flush is a step of its own.
- CshAlloc.Allocator.Malloc: the state is that of the headers; data areas are covered by the disjointness of blocks.
  `sbrk` hands out contiguous zeroed memory up to a limit, and requests for which its argument is no int are excluded.
- CshAlloc.Allocator.Realloc: the copying, and blocks that are free already (`findbucket`).
- CshParser.Parser.Syntax: what the tree holds after an error is not specified, as it is thrown away.
- CshAlias.Alias: what the lexer makes of an alias is a given function of the list and the place of the command.
- CshPrint.RoundTrip: is about the words that are printed; the cut at 80 characters in `pads` and the lexer are left
  out. Which trees come back at all is `CshRoundTrip.ReprintIff`.
- CshEvaluator.Evaluator.Sub6: the command in braces, file tests and globbing are given functions; the shift operators
  are given functions, as C does not define them for all operands. The least int divided by -1 wraps round.
- CshExprTree.ExpOfTree: trees of ints with groups where the levels ask for them, and every operator but =~ and !~,
  whose right side is a pattern.
- CshMatch.Gmatch: patterns with closed brackets and texts without quoted NULs; a class that is not closed is an error
  in the code, or a read beyond the pattern.
- CshBrace.Globexpand: where one brace stays open the result says so, where the code reads beyond the word. The buffer
  of MAXPATHLEN characters is taken to be long enough; backquotes, ~ and the file name part of globbing are left out.
- CshBrace.ExpandIff: words with a brace in brackets behind their first brace, or with open brackets there; where the
  braces outside brackets match and no bracket holds a closing one see `CshBrace.MatchedExpandIff`.
- CshHash.Doexec: only which component is executed; messages about components that were tried and the statistics are
  left out.
- EdCipher.WriteThenRead: the block cipher is any function with an inverse; char is signed; writing does not fail.
- DdCopy.Dd.Copy: read errors, conv=sync, swab (its pointer is advanced in place of its count, `bin/dd/dd.c:452`),
  translation tables, skip and seek.
- History substitution, file completion, directory stack, and the small utilities of the repository.
