# A verified model of JOVE

JOVE is a small Emacs in C. Its buffers are lists of line descriptors whose text lives in an append-only
temporary file behind a block cache; on top of that sit editing primitives with marks, a kill ring, a
regular-expression compiler and interpreter, keymaps, keyboard macros, conditional start-up files, filling,
tags, path names and interactive processes. This project models those parts in Dafny, in the form the C has
(classes whose methods update fields and arrays in place, loops with invariants), and proves what they are for.
Each method is proved against functions on values; the lemmas about those functions say what the code is for.

`dafny verify dfyconfig.toml` checks the whole project.

## The parts

**Temporary file, cache, recovery.** `Geometry` is the arithmetic of line addresses, block numbers and offsets,
for any chunk and block size. `BlockCache` is the cache: LRU list, hash chains and write-back in place, a flat view
of the file that they stand for, and the history of block writes. `LineStore` stores and reads back lines through
it. `StdFile` is the buffered byte stream, with `read` and `write` free to deliver any portion. `TextFile` reads and
writes whole files. `SyncRecord` writes the recovery file, `Recovery` is the program that reads it, `RecordFile` its
format, and `Crash` a run of the editor cut anywhere between two block writes.

**Lines, marks, kills.** `FlatText` takes rows of text and one string for the same thing, and states the one rule by
which marks move. `EditBuffer` has the doubly linked lines, `linebuf`, the marks and every editing primitive, each
proved to be the splice of the text at its offset. `RowText` is how rows join and fall apart. `KillRing` is the cyclic
array of kills, and `LineAlloc` the chunked allocator of line descriptors with its collector.

**Regular expressions.** `Pattern` gives patterns as trees, their language, and the match that is wanted; `Commit` says
which derivations that match can take; `ReCode` is their byte code; `ReParse` what a pattern's text means; `ReRoom` how much room its code takes. `ReCompile` is the one-pass
compiler that writes and patches the code, `ReMatch` the backtracking interpreter, `ReSearch` the search of a line,
`ReSound` what every compiled pattern has, `ReFind` all of that together, `Substitute` search and replace.

**Commands.** `Macros` (the stack of running macros), `RcFile` (the if/else/endif masks), `Keymaps` (sparse and full
maps, binding, dispatch), `Columns` (the three routines that must be in step), `Fill`, `FillWide` and `Paragraph` (filling), `Tags`
(binary search by byte offset), `Paths` (canonical names), `Iproc` (processes and the reaping of children).
`CString` has characters and strings as C has them.

Characters are 8 bits wide and unsigned. Integers are unbounded, but where the C stores a count in one byte, or a length in
two, the model does. The outcomes of `read`, `write`, `malloc`, `readlink`, `wait` and prompts are parameters.

## Model

| member | source | states |
|---|---|---|
| `BlockCache.Cache.constructor` | io.c:1513-1547 | d_cache_init leaves all blocks on the LRU list in order, the hash table consistent, and an empty file coherent with an empty view |
| `BlockCache.Cache.lookup_block` | io.c:1574-1583 | the hash chain finds a cached block, and misses only blocks that are not cached |
| `BlockCache.Cache.LRUunlink` | io.c:1585-1596 | the doubly linked LRU list loses just the given element |
| `BlockCache.Cache.b_unlink` | io.c:1598-1627 | a block leaves the LRU list and its hash chain; a pending write is done first, nothing else changes |
| `BlockCache.Cache.SyncTmp` | io.c:1549-1572 | afterwards no block is dirty and every block of the flat view is on disk; only view contents were written |
| `BlockCache.Cache.Evict` | io.c:1669-1707 | the block reused is the least recently used one, never the last one handed out; its contents are written back before and read back after |
| `BlockCache.Cache.getblock` | io.c:1634-1709 | hands out the slot that holds the address's block; at most that slot changes its block, it is not the one handed out last unless it is the same block, and the list, table and flat view stay coherent; fails exactly when the file is full |
| `LineStore.TmpFile.jputline` | io.c:1346-1372 | a line is stored at a new address at or after the old free end, up to its newline; all earlier lines are kept; it fails only for want of file |
| `LineStore.TmpFile.jgetline` | io.c:1332-1342 | every stored line reads back as it was stored, whatever was stored, read or evicted in between |
| `LineStore.TmpFile.SyncTmp` | io.c:1549-1572 | afterwards every line stored so far can be read from the disk alone |
| `LineStore.StillStoredSince` | io.c:1489-1511 | block writes that put down only the view leave every synced line readable from the disk at every point between writes |
| `StdFile.InFile.f_filbuf` | fp.c:160-186 | a refill delivers the next character whatever portion read returns; end of file exactly when nothing is left |
| `StdFile.InFile.f_gets` | fp.c:275-321 | reads what the recursive meaning of a line says: NULs dropped, too long a line cut with one character lost, end of file remembered |
| `StdFile.InFile.f_seek` | fp.c:212-220 | what is to be read is the file from the offset; nothing beyond its end, or once the end of file has been met |
| `StdFile.InFile.f_toNL` | fp.c:326-341 | what is to be read is what follows the first newline; the end of file is not met if there is one |
| `StdFile.OutFile.flushout` | fp.c:222-273 | the buffer reaches the file in whatever portions write takes; the promised contents do not change |
| `StdFile.OutFile.fputnchar` | fp.c:197-202 | the whole string is, in order |
| `StdFile.OutFile.f_seek` | fp.c:212-220 | nothing buffered is lost by moving the writing position |
| `TextFile.Relocate` | io.c:1402-1444 | the half-read line is copied to the next block while both blocks are in the cache, whatever NBUF >= 2 is |
| `TextFile.f_getputl` | io.c:1382-1458 | reads a line of the file straight into the temporary file: the same line f_gets would read, at a new address, room counted by nleft alone |
| `TextFile.dofread` | io.c:384-403 | the file's lines come in between the two halves of the current line, which joins up with the last of them; a line that is too long is cut, and is the last one read; the joined line is refused exactly when it is too long |
| `TextFile.putreg` | io.c:348-382 | the bytes written are the region's characters with newlines between the lines; the buffer is unchanged |
| `TextFile.JoinReadLines` | fp.c:275-321 | lines read to the end of the file join up to the file without its NULs |
| `TextFile.ReadsToEnd` | fp.c:292-304 | a file is read to its end exactly when, NULs apart, none of its lines is longer than the room |
| `TextFile.ReadThenWrite` | io.c:348-403 | main result: reading any file into an empty buffer and writing the whole buffer gives the file without its NULs exactly when its lines fit, and the same bytes exactly when it also has no NUL; it fails only when the temporary file is full |
| `RecordFile.DecodeEncodeEntry` | recover.c:631-669 | a buffer's record is read back as it was written |
| `RecordFile.DecodeEncodeAddr` | recover.c:671-682 | a line address is read back, whatever the dirty bit beside it |
| `SyncRecord.Editor.SyncRec` | rec.c:118-159 | the recovery file starts with the image of all modified buffers, every stored line is on disk, and no buffer's text has changed; nothing is written when no buffer is modified |
| `Recovery.Recover.jgetline` | recover.c:197-213 | any line that stands on disk at an address is read from there |
| `Recovery.Recover.makblist` | recover.c:631-669 | the list of buffers read back is the list written |
| `Recovery.Recover.seekto` | recover.c:604-614 | the offset computed from the line counts is where the buffer's addresses start |
| `Recovery.Recover.dump_file` | recover.c:684-711 | puts out the lines that were on the screen, each ended by a newline, but for the last |
| `Crash.CrashConsistency` | rec.c:118-159 | main result: after SyncRec, any run, cut between any two block writes, leaves files from which dump_file gives each saved buffer's text as of the SyncRec |
| `Pattern.MatchSound` | re.c:502-655 | what the reference matcher finds is in the pattern's language, with that derivation's end and groups |
| `Commit.MatchGreediest` | re.c:600-636 | without alternations the match found is the greatest in the order of its repetition counts: greedy, first item first |
| `Commit.Best` | re.c:502-655 | with alternations too: what the reference matcher finds, end and groups, is the preferred of the derivations that commit themselves at every alternation; which those are is said of derivations alone, without the matcher |
| `Commit.MatchIffReached` | re.c:585-599 | main result: a match is found exactly when the text has a derivation that takes, at each alternation, the first branch that can be taken at all there and that branch's greediest use |
| `Commit.MatchIffInLanguage` | re.c:502-655 | if every alternation is settled, its branches being of one fixed width or what follows on its level matching everywhere, a match is found exactly when the pattern's language has one; otherwise, only then |
| `Commit.SettledFound` | re.c:585-599 | in such a pattern every derivation leads to a match, whichever branches it takes |
| `Commit.AlternationMisses` | re.c:585-599 | a concrete pattern and text: with the branches `a` and `ab` in braces and then `c`, the first branch that matches is kept and `abc` is missed |
| `Commit.AtomicMisses` | re.c:585-599 | one branch is enough: `a*` in braces and then `a` misses `aa`, because the group does not give back what it took |
| `ReCode.MatchNotes` | re.c:568-574 | a match notes every group of the pattern, whichever branches it takes |
| `ReSound.ParsedSound` | re.c:84-132 | every pattern that can be read gives code the interpreter can rely on, if its literal runs and alternations have at most 127 elements |
| `ReSound.MatchGroups` | re.c:568-574 | each group of a match lies within it and starts before it ends |
| `ReCompile.Compiler.PutLit` | re.c:428-441 | a literal joins the run before it in the code, or starts one |
| `ReCompile.Compiler.PutStar` | re.c:386-427 | a star turns the last verb, or the last character of a run, into its starred form by patching the code, and is a literal where it cannot |
| `ReCompile.Compiler.PutSet` | re.c:330-384 | the code of a bracket set is the bit map of the set that was read; too big, unclosed or done, each exactly when the place and the text say so |
| `ReCompile.Compiler.Escape` | re.c:182-311 | what follows a backslash: groups, alternatives, word edges and quotes, with the paren stack and the table of alternatives kept |
| `ReCompile.Compiler.do_comp` | re.c:136-471 | the code emitted is the code of the items the functional parser reads in the same pattern, complaints agree, and how it ends (done, complaint, too long, overrun) is the function Fate of the text |
| `ReCompile.Compiler.DoBranches` | re.c:188-225 | the branches in braces are emitted with back-patched counts and lengths |
| `ReCompile.Compiler.REcompile` | re.c:84-132 | main result: compiling accepts and rejects exactly what parsing does, ends as PatternFate says of the pattern, and gives code that is the pattern's and quick tests that are right |
| `ReRoom.MoreSeq` | re.c:136-471 | reading a branch with backslash-bar behind the text is the same, or takes part of the backslash-bar: what ended before the end of a text does not depend on what follows |
| `ReRoom.StepRoom` | re.c:160-174 | one element of a pattern adds at most three bytes beyond the place that is checked, but for a backslash-bar of the outer level |
| `ReRoom.OverrunIff` | re.c:160-174 | main result: code is written behind the end of the buffer exactly when the pattern is one that compiles, its alternatives' code being 508 or 509 bytes and fewer than 15 of them, with a backslash-bar behind it |
| `ReRoom.DotsOverrun` | re.c:253-285 | 503 dots and backslash-bar are such a pattern |
| `ReMatch.Matcher.member` | re.c:496-500 | the bit test is membership in the set, inverted or not |
| `ReMatch.Matcher.StarRetreat` | re.c:625-636 | giving back characters one by one finds the longest repetition that lets the rest match |
| `ReMatch.Matcher.TryBranches` | re.c:585-599 | the first branch that matches is taken, and its groups are noted |
| `ReMatch.Matcher.FixedItem` | re.c:508-566 | an item that matches one way at most: what is left to match, and where, or that nothing matches |
| `ReMatch.Matcher.REmatch` | re.c:502-655 | main result: the backtracking interpreter succeeds exactly when the reference matcher does, and the globals then hold that match's end and groups, none left by an abandoned attempt |
| `ReSearch.FoundIffInLanguage` | re.c:677-740 | a search finds exactly the texts with a committed derivation, so only texts of the pattern's language, and misses none of it if every alternation in braces is settled |
| `ReSearch.QuickTests` | re.c:107-131 | the anchor and first-character tests reject only places where there is no match |
| `ReSearch.re_lindex` | re.c:677-740 | the first (or, backward, the last) place where an alternative matches, or none exists |
| `ReFind.LookingAt` | re.c:934-949 | main result: from the pattern's text to the answer: it matches at the offset exactly when some prefix of the text there has a committed derivation; so only if one is in the pattern's language, and exactly then if every alternation in braces is settled; the end is the reference match's |
| `ReFind.FindInLine` | re.c:744-758 | the same for a search within a line: the place found has a committed derivation and is in the language; no nearer one in the direction has one or, if every alternation in braces is settled, is in the language |
| `Substitute.insert` | re.c:826-846 | a group's text is copied, or there is no room, exactly |
| `Substitute.re_dosub` | re.c:851-908 | the line with the match replaced by the expansion of the replacement string; fails exactly when that does not fit |
| `Substitute.EditsInOrder` | reapp.c:135-220 | the edits of a line are disjoint, in order and inside the region |
| `Substitute.Replacer.SubLine` | reapp.c:130-220 | a line becomes the original with its successive matches replaced; the loop ends on every pattern, even one that matches nothing |
| `Substitute.Replacer.substitute` | reapp.c:102-232 | main result: every line of the region is replaced in that way, no other line changes, and the count is the number of replacements; it fails exactly when some line would not fit |
| `FlatText.SpliceRows` | insert.c:63-96 | an edit of rows is the splice of the text at that offset |
| `FlatText.MovedRule` | marks.c:218-258 | the marks' row and column rule is the one rule on offsets: up to the splice it stays, inside the deleted span it collapses, beyond it shifts |
| `FlatText.BetweenFlat` | delete.c:42-83 | what is between two places is that stretch of the text |
| `RowText.FlatJoin` | insert.c:450-500 | joining two texts row by row is putting one string behind the other |
| `RowText.TakeOutPutIn` | delete.c:217-236 | a piece taken out and put back is the original text; joined in front of or behind an earlier kill, it leaves the text with the kill put back as it was |
| `EditBuffer.Buffer.listput` | insert.c:39-59 | the doubly linked list gains one empty line at the place; all others keep their order |
| `EditBuffer.Buffer.lsave` | io.c:1719-1728 | no line's text changes when the current line is stored |
| `EditBuffer.Buffer.IFixMarks` | marks.c:247-258 | every mark moves by the insertion rule |
| `EditBuffer.Buffer.DFixMarks` | marks.c:218-243 | every mark moves by the deletion rule |
| `EditBuffer.ins_c` | util.c:412-435 | copies of a character come in by moving the tail of the line right, or the line is full, exactly |
| `EditBuffer.Buffer.linecopy` | util.c:448-461 | the rest of the current line is replaced, or the line is full, exactly |
| `EditBuffer.Buffer.insert_c` | insert.c:198-208 | the text is spliced at the dot, marks and dot move; fails exactly when the line would be full |
| `EditBuffer.Buffer.LineInsert` | insert.c:63-96 | the line is split and empty lines come in; marks and dot move |
| `EditBuffer.Buffer.ins_str_wrap` | insert.c:398-429 | a string comes in with line breaks where its newlines or the wrap column ask for them; succeeds exactly when every line has room |
| `EditBuffer.Buffer.ins_str` | insert.c:392-396 | a string comes in at the dot just as it is; without newlines, exactly when the line stays short enough |
| `EditBuffer.WrappedPlain` | insert.c:398-429 | without a wrap column no line break is added, and a string without newlines needs just its length of room |
| `EditBuffer.SplicedMore` | insert.c:404-428 | inserting piece by piece is inserting the whole |
| `EditBuffer.Buffer.patchup` | delete.c:21-36 | the text behind one place comes to another, and the marks with it; fails exactly when that does not fit |
| `EditBuffer.Buffer.lremove` | delete.c:85-99 | the lines between leave the doubly linked list, which stays well linked |
| `EditBuffer.Buffer.f_char` | move.c:18-34 | moves by that many characters of the text, newlines counted, clamped at its ends |
| `EditBuffer.Buffer.b_char` | move.c:36-53 | the same backward |
| `EditBuffer.Buffer.inorder` | util.c:95-128 | the two-way search tells which of two places is first |
| `EditBuffer.Buffer.fixorder` | util.c:275-292 | the places are put in order; true exactly when they were exchanged or the same |
| `EditBuffer.Buffer.del_char` | delete.c:135-159 | exactly that many characters of the text go, in either direction, clamped |
| `EditBuffer.Buffer.reg_delete` | delete.c:42-83 | the text between two places in either order goes, marks collapse, and it is returned as a forward list that the buffer does not share; fails exactly when the joined row would be full |
| `EditBuffer.Buffer.DoYank` | insert.c:450-500 | a list of lines comes in at a place: the text is spliced, marks move, the end of the insertion is returned; fails exactly when a line would be full |
| `EditBuffer.ReplacedFlat` | marks.c:218-258 | main result: every edit above is, on the text as one string, the splice at its offset, with dot and all marks moved by the one rule |
| `KillRing.Append` | delete.c:217-236 | a kill joined to the newest one comes before or behind its text; fails exactly when the row where they meet would be full |
| `KillRing.Ring.AddKillRing` | delete.c:187-204 | the cyclic array is a newest-first list of at most NUMKILLS kills, empty slots last; the oldest goes when it is full |
| `KillRing.Ring.DelKillRing` | delete.c:169-185 | the newest kill goes, the order of the others is kept |
| `KillRing.Ring.Rotate` | insert.c:516-530 | turning the ring rotates the list |
| `KillRing.Ring.reg_kill` | delete.c:210-246 | the text leaves the buffer and is in the newest slot, before or behind what consecutive kills put there; fails exactly when the joined row, or for consecutive kills the joined kill, would be full |
| `KillRing.Ring.Yank` | misc.c:215-231 | the newest kill comes in at the dot, exactly when there is one and every row has room for it |
| `KillRing.Ring.KillChars` | delete.c:135-159 | one killing command of either direction; it succeeds exactly when the dot moves and the joined rows have room, and then keeps the text with the newest kill put back |
| `KillRing.Ring.KillRunThenYank` | delete.c:210-246 | main result: after any run of kills, forward and backward, that each succeeded, the yank succeeds and gives the original text back; otherwise the kill that failed is one that Killable excludes, and the text with the kill put back is still the original |
| `LineAlloc.Alloc.freeline` | insert.c:579-588 | a line in use moves to the freed list and nowhere else |
| `LineAlloc.Alloc.RecycleLines` | insert.c:594-613 | the freed lines go to the end of the available ones |
| `LineAlloc.Alloc.lfreereg` | insert.c:624-635 | all lines of a forward list are freed |
| `LineAlloc.Alloc.remfreelines` | insert.c:702-716 | exactly the chunk's lines leave the available list |
| `LineAlloc.Alloc.Release` | insert.c:738-752 | an empty chunk is unlinked and released with its lines |
| `LineAlloc.Alloc.GCchunks` | insert.c:727-757 | releases every chunk none of whose lines is in use, and no other; no line in use is touched |
| `LineAlloc.Alloc.newchunk` | insert.c:637-674 | asks for smaller and smaller chunks, collects once, and succeeds exactly when some request is met |
| `LineAlloc.Alloc.nbufline` | insert.c:678-697 | main result: the line handed out was not in use; fails exactly when nothing is free and every request is refused; every line is in exactly one of in use, available, freed |
| `Macros.RunPlain` | macros.c:169-191 | a macro whose keys start no others delivers its body as often as asked |
| `Macros.GetCRuns` | macros.c:169-191 | key by key, the stack delivers the recursive expansion of nested bodies with their counts, which is finite |
| `Macros.Stack.push_macro_stack` | macros.c:101-125 | a macro that is running, or is to run less than once, is refused; the stack never holds a macro twice |
| `Macros.Stack.mac_getc` | macros.c:169-191 | ends even on empty bodies, and delivers the next key of the expansion |
| `Macros.Stack.RunMacro` | macros.c:127-131 | main result: the keys delivered are the recursive expansion |
| `RcFile.joverc` | extend.c:768-976 | the loop over finger, skipping and inelse does what folding its step over the lines does |
| `RcFile.MaskZero` | extend.c:829-968 | skipping is 0 exactly when no enclosing conditional skips |
| `RcFile.BlockRuns` | extend.c:829-968 | at every level for which the words have a bit, the masks do what a recursive interpreter of the nested blocks does, conditions evaluated and all |
| `RcFile.FileRuns` | extend.c:768-976 | main result: a file of nested blocks runs exactly as the recursive interpreter runs it, and `nested too deeply` is complained of exactly when its depth is 32 or more |
| `RcFile.NestedIffBlocks` | extend.c:829-968 | the files of nested blocks are exactly those whose if, else and endif lines match up |
| `Keymaps.Keymap.km_getkey` | keymaps.c:163-197 | binary search: the key's binding, and where it is or would be inserted |
| `Keymaps.Keymap.km_nextkey` | keymaps.c:199-211 | the first bound key from the given one on, or NCHARS |
| `Keymaps.Keymap.km_setkey` | keymaps.c:253-302 | binds one key and changes no other, through insertion, overwriting, deletion, growth and conversion to a full table; the sparse array stays sorted without empty bindings |
| `Keymaps.Keymap.Convert` | keymaps.c:280-289 | turning the sorted array into a full table in place changes no binding |
| `Keymaps.Unaffected` | keymaps.c:373-391 | in a tree of keymaps a changed entry is seen only by key sequences that lead through it |
| `Keymaps.BindSequence` | keymaps.c:373-391 | main result: the sequence is bound to the object, the way there is made of keymaps, those that were there are kept, and no other sequence's binding changes |
| `Keymaps.dispatch` | keymaps.c:877-923 | ends with the command run, the sequence unbound, an abort, or input exhausted, each exactly when the maps say so |
| `Keymaps.ShortestRuns` | keymaps.c:877-923 | a command is run exactly when its sequence is the shortest that any active map binds, its map being the most specific of those that bind it |
| `Columns.calc_pos` | disp.c:296-315 | the column of a character; past the end, that of the end |
| `Columns.how_far` | move.c:128-151 | the last character that starts at or before the column |
| `Columns.HowFarOfColumn` | move.c:116-127 | how_far undoes calc_pos |
| `Columns.ExpandCols` | disp.c:290-295 | DeTab makes as many cells as calc_pos counts columns |
| `Columns.DeTab` | disp.c:763-809 | the cells right of the offset, cut with `!` when they reach the limit; it writes fewer than PPWIDTH cells past the limit and leaves none there |
| `Columns.PPchar` | fmt.c:57-75 | every character is shown in 1 to 4 cells, none of them a NUL |
| `Columns.ShownAtColumn` | disp.c:755-762 | each cell of a character is shown at the column calc_pos gives, unless scrolled away or cut |
| `Columns.CutIff` | disp.c:798-803 | the line is cut exactly when its end reaches the limit |
| `Fill.Filler.do_space` | para.c:411-453 | the white space around point becomes what separates two words, two blanks after the end of a sentence, and nothing at either end of the line |
| `Fill.Filler.DoJustify` | para.c:459-539 | ends, and leaves the lines that the recursive account of filling gives; lines around the stretch are unchanged |
| `Fill.RunWords` | para.c:459-539 | filling keeps the words, maximal runs of characters that are not white, in order |
| `Fill.FilledWell` | para.c:459-539 | words kept; every line but the first is within the margin or a single word, and so is the first unless filling starts on a line of white space, when it may have one word too many |
| `Fill.BlankStartTooWide` | para.c:488-515 | a concrete input where it is: okay_char meets the start_char of the blank line |
| `FillWide.FlowKeeps` | para.c:459-539 | a word that has been placed stays where it is, whatever is joined behind it |
| `FillWide.NarrowIff` | para.c:459-539 | main result: every line is within the margin or a single word exactly when it is not so that filling starts on a line of white space, a word of the text to come that fits, or that is not asked, ends just where that line did, and the next one sticks out |
| `Paragraph.get_indent` | para.c:164-195 | the column of the first character that is not white, or that the delimiter pattern matches the line, the pattern being compiled and matched as above |
| `Paragraph.DelimParsed` | para.c:130 | the usual delimiter pattern compiles, and its alternatives are a line of white space, a dot and a backslash |
| `Paragraph.DelimFair` | para.c:130 | it has no back-references and its counts fit their bytes, which is what get_indent takes |
| `Paragraph.BlankDelimits` | para.c:164-195 | with it, a line of white space delimits paragraphs |
| `Paragraph.UsualFillIsNarrow` | para.c:471-479 | so DoJustify never starts behind the white space of a blank line, and every line it leaves is within the margin or a single word |
| `Tags.Probe` | reapp.c:389-396 | seeking into the middle and skipping to a newline reads the next whole line; the end of file is never met |
| `Tags.SearchOn` | reapp.c:415-440 | the sequential loop finds the first line that starts with the tag, unless a line beyond the tag comes first |
| `Tags.lookup_tag` | reapp.c:304-447 | main result: on a sorted file with lines shorter than half a block, found exactly when the scan from the top finds, never bailing out of the binary search |
| `Tags.ScanComplete` | reapp.c:415-440 | in a sorted file the scan from the top finds the first line that starts with the tag, if there is one |
| `Paths.WalkCanonical` | io.c:872-950 | whatever the links are, the result has no empty, `.` or `..` component |
| `Paths.PathParse` | io.c:817-953 | main result: ends after fewer than 100 links with the absolute canonical path that walking the components gives, within its buffer |
| `Paths.Components` | io.c:872-950 | the loop over the components does what the walk does, following a link before a `..` exactly when there is room |
| `Paths.ParseUndoesPrName` | io.c:526-558 | PathParse undoes pr_name exactly unless the name is shown relative to the current directory and its first component is then taken for a quoted tilde or for a home directory elsewhere |
| `Paths.QuotedTildeLost` | io.c:845-848 | a concrete name that is not read back |
| `Iproc.Iprocs.proc_rec` | iproc.c:1353-1404 | output goes to the process's buffer, which is live |
| `Iproc.Iprocs.read_pty_proc` | iproc.c:491-550 | what each kind of read does to the one process with that descriptor, and to no other |
| `Iproc.Iprocs.kill_off` | iproc.c:1669-1725 | a child's end is noted after its last output, its obituary last in its buffer; no other process changes |
| `Iproc.Iprocs.untieDeadProcess` | iproc.c:1449-1470 | both ends of the tie go, exactly when the process is dead |
| `Iproc.Iprocs.kill_buf` | buf.c:285-345 | killing a buffer is refused exactly when its process is not dead |
| `Iproc.Iprocs.free_proc` | iproc.c:1425-1447 | a dead process is forgotten and nothing points at it; others stay |
| `Iproc.Iprocs.proc_strt` | iproc.c:840-1178 | a new process is tied both ways to its buffer; refused exactly when the buffer has one that is not dead |
| `Iproc.Iprocs.ProcCont` | iproc.c:552-562 | only a stopped child of the current buffer that could be signalled becomes live again; no other changes |
| `Iproc.Iprocs.KillProcs` | iproc.c:1303-1322 | every pty is closed, unless something runs and the user refuses |
| `Iproc.Iprocs.reap_procs` | iproc.c:1239-1260 | every change that has arrived is heard of, in order, each child's state is that of its last change, and processes that are not dead stay tied to live buffers; the flag and handler end as the protocol says |
| `Iproc.ReapKeeps` | iproc.c:1216-1260 | reap_procs leaves nothing to wait for and no flag set, whatever arrives meanwhile, if handlers stay in place or fewer changes are still to come than the protocol can lose |
| `Iproc.ReapForgets` | iproc.c:1249-1252 | otherwise: arrivals are constructed that leave a change unwaited for with the flag unset |
| `Iproc.ReapKeepsIff` | iproc.c:1239-1260 | main result: `an unreaped change implies the flag` holds on every return exactly when handlers are not one-shot or fewer changes than Need are still to come; Need is 1, 2 or 3, by the flag and the handler on entry |
| `Iproc.OneShotForgets` | iproc.c:1249-1252 | a concrete run with a one-shot handler that forgets a child |

## Findings

Where the code does not do what it is for, the model keeps the code as it is, gives an input, and says exactly when it does.

| what fails | members | when |
|---|---|---|
| A filled line may be too wide (`para.c:488-494`): the test for the first word on a line compares `okay_char` with `start_char`, and on a line of white space a later word can end just there. | `Fill.BlankStartTooWide` (an input), `FillWide.NarrowIff` (exactly when) | Only if DoJustify moves to the indentation of a line of white space. `Paragraph.UsualFillIsNarrow` shows that with the usual paragraph-delimiter-pattern it never does, because that pattern matches such lines; after the pattern has been set to one that does not, FillParagraph and FillRegion can start there (`para.c:345`, `para.c:397`), while SelfInsert (`insert.c:192`) fills a single line, which is never affected. |
| Compiling a pattern can write one or two bytes behind `r_compbuf` (`re.c:166`). | `ReRoom.DotsOverrun` (an input), `ReRoom.OverrunIff` (exactly when) | The pattern is one that compiles, with fewer than 15 alternatives and 508 or 509 bytes of code, and a last backslash-bar. |
| A change of a child can be forgotten (`iproc.c:1249-1252`): the flag is cleared after the handler has been reset. | `Iproc.OneShotForgets`, `Iproc.ReapForgets` (runs), `Iproc.ReapKeepsIff` (exactly when) | Handlers serve once, and at least as many changes are still to come as `Need` says (1 to 3). With `sigaction` handlers (`jove.c:103-115`) it cannot happen. |
| PathParse does not undo pr_name (`io.c:845-848`). | `Paths.QuotedTildeLost` (an input), `Paths.ParseUndoesPrName` (exactly when) | The name is shown relative to the current directory, and its first component starts with a quoted tilde, or with a tilde that names a home directory elsewhere. |
| A match can be missed behind a group in braces (`re.c:585-599`): the group keeps the first of its branches that matches, and that branch's greediest match, and gives nothing back when what follows fails. | `Commit.AlternationMisses`, `Commit.AtomicMisses` (inputs), `Commit.MatchIffReached` (exactly when), `Commit.MatchIffInLanguage` (for which patterns never) | A text is found exactly when it has a derivation that commits itself in that way at every group. Nothing is missed if the branches of each group all have one fixed width, or if what follows the group on its level matches everywhere (`Settled`, to be read off the pattern); patterns without braces are settled. What is found is always in the language. |

## Left out

- Errors of the disk, the creation and naming of the temporary file, and a crash while the recovery file itself is rewritten.
- Padding and byte order within the recovery file's records; `DDIRTY` is a flag beside the address.
- StdFile.OutFile.f_seek: offsets beyond the end of the file are not modelled.
- TextFile.dofread: `FileFull` is given one way, and stands for the failure of the temporary file; where a cut line leaves the place behind it, the byte there is taken for a NUL.
- TextFile.putreg: takes its two places in order, as the callers give them.
- StdFile.InFile.f_gets: does not say what the caller's buffer holds when the first line read is too long.
- SyncRecord.Editor.SyncRec: the branch for a recovery file that could not be opened (`rec_fd == -1`) is not modelled.
- EditBuffer.Buffer.ins_str_wrap: after a `line too long` the marks of the row being written are not fixed, and what the buffer holds then is not said; the same for the complaints of linecopy, patchup and DoYank, and for a string of several rows that stops midway.
- EditBuffer.Buffer.LineInsert: a count of 0 is not modelled.
- EditBuffer.Buffer.DoYank: a list that does not start in column 0 of its first line is not modelled.
- The mark ring (do_set_mark, PopMark), making and deleting marks, and ChkWindows; a mark that a command sets on the way is not part of the model.
- EditBuffer takes a new line descriptor where the code calls the allocator; LineAlloc shows that what the allocator hands out is in no list, and the two are not joined in one state. A line's `l_dline` stands for the text stored there, which LineStore justifies.
- Several parts have their own view of a buffer (TextFile, SyncRecord, Substitute and EditBuffer): each has the fields its code uses.
- KillRing.Ring.reg_kill: does not say which of the joined kill's line descriptors are freed.
- LineAlloc.Alloc.GCchunks: relies on every line in use having an address that is not NULL, as the code does; lfreelist and its callers are not modelled.
- Back-references are compiled but not matched; literal runs and alternations of more than 127 elements, whose counts do not fit a signed byte, are compiled but not matched.
- ReCompile.Compiler.Alternative: with no group open, the code reads the word before its stack of groups before it complains; that value is not modelled.
- ReFind.LookingAt: takes patterns without back-references whose counts fit their bytes; the same for FindInLine. The search from line to line (docompiled) is not modelled.
- Substitute.Replacer.substitute: the query-replace dialogue is not modelled; lines are a sequence with the current one in linebuf.
- Macros.Stack.RunMacro: a macro that names one that does not exist, and redefining a macro while it runs, are not modelled.
- RcFile.joverc: reading the file and running its commands are parameters; so is what a condition says.
- Keymaps.BindSequence: does not model the freeing of objects that are overwritten, deleted or rebound (DelObjRef); a keymap that is overwritten stays, unreachable.
- Columns.DeTab: takes a line without NUL.
- Fill.Filler.DoJustify: takes whole lines, without scrunch and without `use_lmargin` (the branch that first indents the head line anew); putting the dot back at its saved mark is not modelled. A stretch that starts in the middle of a line is not modelled.
- Paragraph.get_indent: at the end of the buffer the line below is taken for an empty one; find_para's rules for where paragraphs start and end are not modelled.
- Tags.lookup_tag: takes an ASCII file and a tag that is not empty; finding the place that the line names is not modelled.
- Paths.PathParse: readlink never returns an empty target, and names fit the buffers, so jamstr truncation does not arise and copies that would not fit are not modelled (the same for Components); the variants for other file systems are not modelled.
- Iproc.Iprocs.proc_strt: a new child's process number differs from those of all that are listed, dead ones included; the system could reuse that of a dead child that is still listed. What happens between fork and listing, and the mark where output goes, are not modelled.
- Redisplay, windows, prompts, mouse, incremental search, and the variants for other systems.
- C integer overflow: only counts that the code stores in bytes wrap around.
