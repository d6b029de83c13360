# WWIV: message store, mail, flags, CRC, search formulas, conferences

A Dafny model of six parts of the WWIV bulletin board system, with proofs of
what they promise. The code that changes things in place is modelled as classes
and methods with loops over the same state; each method is proved equal to a
specification function, and the properties below are proved of those functions
for all inputs, all runs or all reachable states.

* **The message text store** (`Gat.dfy`, `MessageText.dfy`, `MessageFile.dfy`,
  `MessageStore.dfy`). A file of sections, each with a table of 2048 entries
  and 512-byte blocks. A message is a chain of blocks ending in 65535. The table
  of one section is cached. The model has the same first-fit scan, the same
  freeing that zeroes before it follows, the same reader with its cut at a late
  Control-Z, and the same appending of a line over the last block's Control-Z.
  `WellFormed` says that a table splits into disjoint acyclic chains. Chains are
  computed from the table alone, so nothing has to be recorded beside it.
* **The mail file** (`Email.dfy`, `MailRuns.dfy`). Records that point into the
  text store, and a one-byte counter of waiting mail for each user. A run is any
  sequence of sending, sending one text to many, sending carbon copies, deleting
  and logging off. `RunCleanIff` says exactly when nothing ever dangles or leaks,
  and `RunRefines` that such a run, read through the two files, is the run of a
  plain list of letters.
* **Mail forwarding** (`Forward.dfy`). A walk over forwarding entries that may
  form cycles, against an answer read off the graph alone.
* **Directory flags** (`Words.dfy`, `DirEdit.dfy`). Bits in 32-bit words,
  shifted across words when a directory is inserted, deleted, swapped or moved.
* **CRC-32** (`Words.dfy`, `Crc.dfy`). The table-driven loop against bit-serial
  division as in section 8.1.1.6.2 of ITU-T V.42 and section 8 of RFC 1952.
* **The search formula** (`Formula.dfy`). A recursive descent that parses and
  evaluates at once with a shared cursor, against the tree of the formula.
* **Switching conferences off and on** (`Conf.dfy`). A counter with saved
  positions around rebuilt lists of visible areas.

`dafny verify dfyconfig.toml` checks the whole project.

## Where the code and its own words differ

The model follows the code.

* A text whose Control-Z stands in its last 511 characters comes back cut there
  if it fills at least one block, and whole otherwise (`ReadBackExactlyWhen`,
  `ReadBackFinalCz`).
* Saving an empty text gives the address 65535, which is the last block of
  section 31 (`EmptyTextAddress`). A save that finds no room gives an address as
  well; `SaveWithoutRoom` says that it stores nothing, and `SaveThenRead` says
  exactly when a save makes a new message that reads back.
* Appending at the address of a free block never ends: the walk goes round entry
  0 (`AppendWalkEndsIff`). A save without room can hand out such an address
  (`StaleAddressNeverEnds`).
* Reading the address of a removed message gives its first block instead of
  nothing (`FreedReadsFirstBlock`).
* A multi-mail that every recipient's mailbox turns down, and mail none of whose
  copies is local, leave their text in the store (`MultiMailLinkedIff`,
  `MultiMailLeaks`, `StepCleanIff`).
* Local carbon copies share a text without the mark that protects it, so deleting
  one leaves the others without their text (`CopiesDangle`;
  `FreeKeepsLinkedIff` gives the exact condition).
* The counter of waiting mail is a byte and wraps at 256 (`StepCounts` gives the
  exact condition).
* Mail forwarded to a user number that does not exist is taken for a cycle
  (`MissingUserIsCycle`).
* Inserting and deleting a directory at one place is not always a way back: the
  last flag of the words rewritten may be lost, and with 31, 63, ... directories
  a further word stays moved up (`DeleteUndoesInsert` with its exact conditions,
  `InsertDeleteLeavesShift`, `InsertDeleteLosesFlag`).
* With a permitted number of directories that is a multiple of 32, the insert
  that reaches it rewrites a word behind the directory words
  (`InsertStaysInsideIff`, `InsertSpills`).
* The masks of insert and delete shift by 32 at some positions, which C leaves
  undefined. The model reads such a shift as 0. On a machine that takes the count
  modulo 32, insert differs at the positions 0 and 31 of a word and delete at
  position 0, and nowhere else (`InsertShiftsIff`, `DeleteShiftsIff`). The menu's
  move excludes insertion at position 0 only.
* In a formula the closing parenthesis ends the innermost call that is reading
  operands, not the one that opened the group. So `(a & b | c) | d` is read as
  `a & ((b | c) | d)`, and `!(a & b) | c` negates everything up to its end
  (`GroupTakesTheRest`, `MisreadGroup`; `GroupReadAsMeantIff` is exact).
* An exclamation mark or an opening parenthesis right behind a word ends the
  reading (`WordThenMark`).
* A blank never joins two words: `a b` means `a`, although the code has a branch
  for a blank as an operator (`TokenIsNoBlank`, `WordsBehindBlankIgnored`).
* `access_at_least_one_conf` asks for all conferences of an area, not for one
  (`AccessAtLeastOneConf`).
* Switching conferences off looks the current file area up under the number of
  the current message area (bbs/conf.cpp:72). While they are off, the user may be
  in another file area (`FileAreaKeptIff` says exactly when not, `FileAreaLost`
  is a case); switching them on again uses the right number (`NestingRestores`).

## Model

| member | source | states |
|---|---|---|
| Gat.ChainDistinct | bbs/message_file.cpp:197-215 | No block occurs twice on a chain that ends in 65535: chains are acyclic. |
| Gat.PathIsChain | bbs/message_file.cpp:207-215 | Following entries from a chain's first block visits exactly the chain's blocks, in order, and ends at its last one. |
| Gat.AllPathsEnd | bbs/message_file.cpp:197-200 | In a table that splits into chains, following entries leaves the table from wherever one starts, so the reader's loops terminate. |
| Gat.ReachesEndIff | bbs/message_file.cpp:241-244 | In a table that splits into chains, following entries meets 65535 from a block if and only if the block is allocated; from a free one it never does. |
| Gat.SplitUnique | bbs/message_file.cpp:42-43 | A table splits into chains in at most one way, the one computed from the table. |
| Gat.UnlinkOnlyZeroes | bbs/message_file.cpp:121-126 | On every table, corrupt and cyclic ones included, freeing only changes entries to 0 and zeroes the first one. |
| Gat.UnlinkChain | bbs/message_file.cpp:121-126 | Freeing a chain zeroes exactly the entries of its blocks. |
| Gat.UnlinkKeepsShape | bbs/message_file.cpp:109-128 | Freeing a message keeps the table well formed and every other chain as it was, and removes that chain. |
| Gat.FirstFreeSpec | bbs/message_file.cpp:150-158 | The scan takes the lowest free blocks in increasing order, as many as asked for unless there are no more. |
| Gat.HasRoomIff | bbs/message_file.cpp:153-159 | The scan finds enough blocks if and only if at least that many blocks of the section are free. |
| Gat.LinkEffect | bbs/message_file.cpp:160-170 | Chaining a list of blocks writes each block's successor, 65535 for the last, and no other entry. |
| Gat.LinkKeepsShape | bbs/message_file.cpp:160-171 | Chaining free blocks keeps the table well formed, adds exactly that chain and leaves the others. |
| Gat.UnlinkUndoesLink | bbs/message_file.cpp:121-127 | Freeing a chain just written restores the table entry for entry. |
| Gat.ExtendKeepsShape | bbs/message_file.cpp:260-266 | Hanging a free block on a message's last block lengthens that chain by it and keeps the shape and the others. |
| MessageText.TextBlockAt | bbs/message_file.cpp:162-168 | The i-th block written holds the i-th chunk of 512 characters, zero-filled. |
| MessageText.TextCharAt | bbs/message_file.cpp:162-168 | Each character of the blocks written is the text's, and NUL behind the text's end. |
| MessageText.RawOfText | bbs/message_file.cpp:166-168 | The blocks of a text give it back if and only if it holds no NUL. |
| MessageText.ReadBackExactlyWhen | bbs/message_file.cpp:188-224 | What is read back is the very text if and only if it is NUL-free and is shorter than a block or has no Control-Z among its last 511 characters. |
| MessageText.ReadBackFinalCz | bbs/message_file.cpp:217-222 | A text whose only Control-Z is its last character loses it when it fills at least one block and keeps it otherwise. |
| MessageText.ReadBackCut | bbs/message_file.cpp:217-222 | A NUL-free text with a Control-Z among its last 511 characters comes back cut at the last one. |
| MessageText.OverlayHalves | bbs/message_file.cpp:252-262 | The two halves of the buffer hold the old block without its Control-Z followed by the line, split at 512, and the last one used ends in a Control-Z. |
| MessageText.OverlayBehind | bbs/message_file.cpp:252-262 | When the block has no Control-Z the first half of the buffer is the block as it was and the second the line. |
| MessageFile.BytesApart | bbs/message_file.cpp:39-40 | Byte ranges of tables and blocks, within and across sections, never overlap, and a section ends where the next one's table starts; tables fit signed 32-bit offsets exactly up to section 2040, blocks exactly up to block 55 of it. |
| MessageFile.MessageBase.OpenMessageFile | bbs/message_file.cpp:49-72 | A missing file is created with one empty section; the cached table is section 0's table in the file. |
| MessageFile.MessageBase.SetGatSection | bbs/message_file.cpp:74-94 | The file is lengthened to the section if needed, with empty tables, and the cached table is that section's table in the file. |
| MessageFile.MessageBase.SaveGat | bbs/message_file.cpp:96-103 | The table in the file becomes the cached one and nothing else changes. |
| MessageFile.MessageBase.RemoveLink | bbs/message_file.cpp:109-135 | Terminates on every table; the file becomes the one with that message's entries zeroed, and the cached table agrees with it. |
| MessageFile.MessageBase.FindFree | bbs/message_file.cpp:150-158 | The loop notes the first free blocks and leaves the rest of the list alone. |
| MessageFile.MessageBase.WriteChain | bbs/message_file.cpp:160-170 | The loop writes the text's chunks to the noted blocks and chains them in the cached table. |
| MessageFile.MessageBase.SaveFile | bbs/message_file.cpp:137-186 | The loop over sections yields the file and address of the first-fit save, stale address included when there is no room; the cached table agrees with the file. |
| MessageFile.MessageBase.ReadFile | bbs/message_file.cpp:188-224 | Returns the characters on the chain, cut at a late Control-Z, or nothing for block 0; changes no message. |
| MessageFile.MessageBase.LineAdd | bbs/message_file.cpp:226-275 | Where the walk to the last block ends and the line fits the buffer, the line with CR LF and Control-Z goes over the last block's Control-Z and spills to the lowest free block when it does not fit; the cached table agrees with the file. |
| MessageStore.GrowingKeepsMessages | bbs/message_file.cpp:74-94 | Creating and lengthening the file adds no message, loses none and changes no text. |
| MessageStore.RemoveKeepsOthers | bbs/message_file.cpp:109-135 | Removing a message keeps every table well formed, removes that message only and changes no other text. |
| MessageStore.FreedReadsFirstBlock | bbs/message_file.cpp:188-224 | Reading the address of a message just removed gives the characters of its first block. |
| MessageStore.SaveIsFirstFit | bbs/message_file.cpp:148-177 | A save goes to the lowest section with enough free blocks, to that section's first free blocks, and changes nothing when there is none. |
| MessageStore.CanSaveIff | bbs/message_file.cpp:148-159 | A text can be saved if and only if the file has fewer than 1024 sections or some section has enough free blocks. |
| MessageStore.SaveStores | bbs/message_file.cpp:137-186 | With room, a save adds one message at an address that held none, keeps the tables well formed and every other text, and reading the address gives the text as a reader sees it. |
| MessageStore.SaveWithoutRoom | bbs/message_file.cpp:148-177 | Without room in any section a save changes no section. |
| MessageStore.EmptyTextAddress | bbs/message_file.cpp:151-177 | An empty text gets the address 65535 whatever the file holds, and takes no block. |
| MessageStore.SaveThenRead | bbs/message_file.cpp:137-224 | A save makes a new message that reads back as the very text if and only if the text is not empty, there is room, it holds no NUL and no Control-Z where the reader cuts. |
| MessageStore.RemoveUndoesSave | bbs/message_file.cpp:109-186 | Removing right after saving restores every table entry for entry. |
| MessageStore.AppendWalkEndsIff | bbs/message_file.cpp:241-244 | In a well-formed file the walk to the last block ends if and only if the address is of an allocated block. |
| MessageStore.StaleAddressNeverEnds | bbs/message_file.cpp:148-177 | When a save finds no room and the last section has a free block, the address it hands out is of a free block, where appending never ends. |
| MessageStore.StaleAddress | bbs/message_file.cpp:148-177 | A save without room hands out, in the last section, the number of the lowest free block of the last section that has one, or block 0. |
| MessageStore.AppendKeepsOthers | bbs/message_file.cpp:226-268 | Appending keeps every table well formed, the set of messages and every other message's text. |
| MessageStore.AppendExtendsText | bbs/message_file.cpp:226-268 | Appending to a message that ends in its Control-Z gives the old text without it, the line, CR LF and a Control-Z, whether or not a block is chained, and how full the last block then is; without a free block the result is cut at the end of the last block. |
| MessageStore.AppendThenRead | bbs/message_file.cpp:188-268 | After appending the reader gets old text, line and CR LF, with the final Control-Z dropped when the whole fills a block. |
| MessageStore.AppendWithoutMark | bbs/message_file.cpp:252-266 | Appending to a message whose last block has no Control-Z adds the line behind the whole text, or nothing when no block is free. |
| MessageStore.SavedEndsMarked | bbs/message_file.cpp:137-186 | A saved text whose only Control-Z is its last character can be appended to; its last block is filled up to the text's length modulo 512. |
| Email.MailBase.FindSlot | bbs/email.cpp:210-226 | The loop stops behind the last live record. |
| Email.MailBase.SendoutEmail | bbs/email.cpp:184-233 | The record for local mail goes to that slot and the counter of its user goes up by one, as a byte. |
| Email.MailBase.Email | bbs/email.cpp:524-537 | Storing a text and sending it is a save followed by a record holding the save's address. |
| Email.MailBase.MultiMail | bbs/multmail.cpp:84-182 | One text is saved, lines are appended to it, each recipient's counter goes up, and each recipient gets a record marked as sharing the text. |
| Email.MailBase.EmailCopies | bbs/email.cpp:537-668 | One text is saved, the list of recipients is appended to it, and each local recipient gets an ordinary record and a raised counter. |
| Email.MailBase.DelMail | bbs/email.cpp:713-762 | The record is erased, its user's counter goes down unless 0, and its text is freed unless it is marked as shared and another dated record has it. |
| Email.MailBase.Compact | bbs/lilo.cpp:965-985 | The loop moves exactly the live records, in order, to the front and counts the user's local mail up to 255. |
| Email.MailBase.Logoff | bbs/lilo.cpp:963-995 | The file becomes the sequence of its live records and the user's counter min(255, number of them that are local mail to the user). |
| MailRuns.SendAppends | bbs/email.cpp:210-229 | Sending overwrites no live record and appends to the sequence of live records. |
| MailRuns.CompactedIsLive | bbs/lilo.cpp:965-995 | A compacted file holds live records only, and compacting it again changes nothing. |
| MailRuns.LogoffPacks | bbs/lilo.cpp:965-995 | After logging off every record in the file is live, the file is the sequence of records that were live, and logging off again leaves it as it is; a user number outside the user file changes nothing. |
| MailRuns.SharedIff | bbs/email.cpp:724-740 | The scan finds another holder of the text if and only if another live record refers to it. |
| MailRuns.FreedIsUnshared | bbs/email.cpp:724-746 | When the record deleted carries the mark or has its text alone, the text is freed if and only if no other live record has it; otherwise it is freed although another has it. |
| MailRuns.FreeKeepsLinkedIff | bbs/email.cpp:744-761 | Freeing the text of the record deleted keeps the two files in step if and only if no other live record has that text. |
| MailRuns.AddKeepsLinked | bbs/multmail.cpp:148-182 | New records for one new message keep the two files in step and add their letters at the end. |
| MailRuns.DeleteStep | bbs/email.cpp:713-762 | A safe deletion keeps the two files in step and removes exactly that letter; an unsafe one leaves a live record whose text is gone. |
| MailRuns.DeletedRecord | bbs/email.cpp:748-761 | Deleting leaves the other records as they are and the record dead, undated and without text, and lowers no counter but its user's, by one and not below 0; a record that is dead or missing changes nothing. |
| MailRuns.DeletedText | bbs/email.cpp:724-746 | Whatever the file holds, the text is freed unless the record carries the mark and another dated record has the same text. |
| MailRuns.LinesExtend | bbs/multmail.cpp:87-146 | Lines appended one after another extend that message by exactly those lines and change no other. |
| MailRuns.StepRefines | bbs/email.cpp:179-233 | Each safe step keeps the two files in step and does to the readers' letters what it means for a plain list. |
| MailRuns.StepDelivers | bbs/email.cpp:184-233 | A sending step adds to each user's mail exactly what is sent to that user, with title, sender, origin, date and text, at the end, and nothing to anybody else's; logging off changes nobody's mail. |
| MailRuns.DeleteTakes | bbs/email.cpp:713-762 | A safe deletion takes that letter from its user's mail, where it stood, and nothing from anybody else's. |
| MailRuns.LocalMarks | bbs/email.cpp:187-203 | Local mail carries the mark for other networks exactly when it comes from another system and there are several networks, and never the mark for shared texts. |
| MailRuns.StepCleanIff | bbs/email.cpp:646-762 | From files in step, a step leaves nothing dangling and nothing leaked if and only if a stored text has a taker and a deletion is of a marked record or one whose text no other live record has. |
| MailRuns.RunRefines | bbs/email.cpp:179-762 | Over every safe run the two files stay in step and the letters read through them are those of a plain list of letters. |
| MailRuns.RunCleanIff | bbs/email.cpp:179-762 | Over every run nothing dangles and nothing leaks at any time if and only if every step is safe. |
| MailRuns.PlainRunIsSafe | bbs/email.cpp:724-746 | Runs in which texts sent to many have takers and carbon copies one local reader are safe, whatever is deleted and whenever users log off. |
| MailRuns.NothingDanglesNothingLeaks | bbs/email.cpp:713-762 | In every run from an empty system, carbon copies and multi-mails without takers included, the messages in the text file are all the time exactly those of live records if and only if every step is safe; then every live record can be read. |
| MailRuns.MultiMailLinkedIff | bbs/multmail.cpp:84-182 | For every text and lines that fit, a multi-mail keeps the two files in step if and only if somebody takes it; otherwise the text stays in the store and no record refers to it. |
| MailRuns.MultiMailLeaks | bbs/multmail.cpp:84-147 | A multi-mail with its three lines and no taker, in an empty system, leaks its text. |
| MailRuns.CopiesDangle | bbs/email.cpp:661-667 | After carbon copies to two or more local users there is a record whose deletion leaves another without its text. |
| MailRuns.CopiesDangleFromStart | bbs/email.cpp:661-667 | A run from an empty system in which that happens. |
| MailRuns.CountIsNumber | bbs/lilo.cpp:965-977 | What is counted for a user is the number of live local records to that user. |
| MailRuns.SendRaises | sdk/user.h:656-661 | Sending raises the recipient's counter by one, from 255 to 0, and no other. |
| MailRuns.SendCounts | bbs/email.cpp:288-292 | Sending keeps exact counters exact if and only if the recipient's counter is not 255. |
| MailRuns.DeleteCounts | bbs/email.cpp:748-754 | Deleting keeps exact counters exact. |
| MailRuns.LogoffRecounts | bbs/lilo.cpp:965-977 | Logging off sets the user's counter to min(255, number of live local records to the user), whatever it held. |
| MailRuns.MultiCounts | bbs/multmail.cpp:110-111 | Sending to many keeps exact counters exact if and only if it counts no user past 255. |
| MailRuns.CopiesCounts | bbs/email.cpp:661-667 | Sending copies keeps exact counters exact if and only if it counts no user past 255. |
| MailRuns.StepCounts | sdk/user.h:656-661 | Any step keeps every counter equal to its user's number of live local records if and only if no counter wraps. |
| MailRuns.RunCounts | bbs/lilo.cpp:963-995 | Over every run in which no counter wraps all counters stay exact. |
| Forward.Forwarding.ForwardMessage | bbs/email.cpp:67-151 | Terminates on every graph; deleted and remote addressees change nothing; otherwise the result is the answer read off the graph alone. |
| Forward.Forwarding.Walk | bbs/email.cpp:115-150 | The loop with the visited marks gives the answer for the end of the chain, or nothing changed on a cycle. |
| Forward.ReadIsEntry | sdk/usermanager.cpp:73-96 | Reading the user that the record in hand forwards to leaves a record that forwards as that user's entry does, also when there is no such user. |
| Forward.MissingUserIsCycle | bbs/email.cpp:118-147 | On a chain that reaches a user who does not exist nothing is forwarded and nothing changes. |
| Forward.EndIsUnique | bbs/email.cpp:119-147 | A chain has at most one end. |
| Forward.RepeatsNeverEnd | bbs/email.cpp:129-131 | A chain that meets a user twice never ends. |
| Forward.AnswerIsUnique | bbs/email.cpp:67-151 | The graph determines the answer. |
| Forward.ForwardedToEnd | bbs/email.cpp:145-150 | A local user forwarded to is the end of the chain from the start, at least one hop away, and forwards nowhere. |
| Forward.NetworkForward | bbs/email.cpp:81-97 | Mail forwarded to another system goes to the user and system in the entry at the chain's end; the system is valid on the network it is asked of, and the entry's network is selected. |
| Forward.NetworkForwardIff | bbs/email.cpp:81-128 | A chain that ends at an entry for another system is forwarded if and only if the system is valid and, for the addressee's own entry, it is no Internet entry and the address is good; otherwise the mail stays with the addressee, or with nobody for an Internet entry. |
| Forward.ClosedMailbox | bbs/email.cpp:104-144 | A chain that ends at a closed mailbox is not forwarded, and leaves user 0, or the closed user for a sysop. |
| Forward.OpenMailbox | bbs/email.cpp:77-80 | A chain that ends at a user who forwards nowhere is forwarded to that user unless it is the addressee. |
| Forward.CycleChangesNothing | bbs/email.cpp:129-131 | On a cycle nothing is forwarded, and user, system and network are as before. |
| DirEdit.InsertFlag | bbs/diredit.cpp:398-409 | The word loop with its masks inserts a set flag in the sequence of flags, for every position and number of words, and rewrites no word behind the last one. |
| DirEdit.DeleteFlag | bbs/diredit.cpp:430-441 | The word loop deletes a flag from the sequence of flags, for every position and number of words. |
| DirEdit.SwapFlags | bbs/diredit.cpp:356-368 | Flipping both bits when just one is set exchanges the two flags. |
| DirEdit.InsertedWordBit | bbs/diredit.cpp:398-409 | Bit by bit: in the word of the insertion the lower bits stay, the new bit is set and the others move up. |
| DirEdit.DeletedWordBit | bbs/diredit.cpp:430-437 | Bit by bit: in the word of the deletion the lower bits stay, the others move down and the next word's first comes in. |
| DirEdit.CarryUp | bbs/diredit.cpp:406-408 | A later word moves up by one bit and takes the top bit of the word before. |
| DirEdit.CarryDown | bbs/diredit.cpp:439-441 | A later word moves down by one bit and takes the first bit of the word behind. |
| DirEdit.DirBase.InsertDir | bbs/diredit.cpp:379-416 | Outside the list nothing changes; otherwise the new directory is inserted and a set flag with it for every user. |
| DirEdit.DirBase.DeleteDir | bbs/diredit.cpp:418-447 | Outside the list nothing changes; otherwise the directory goes, and its flag for every user. |
| DirEdit.DirBase.SwapDirs | bbs/diredit.cpp:345-377 | Outside the list nothing changes; otherwise both directories and every user's two flags are exchanged. |
| DirEdit.DirBase.MoveDir | bbs/diredit.cpp:479-508 | Exactly under the menu's guards the list becomes "take one, put it before the other" and, for every user, every directory's flag travels with it; otherwise nothing changes. |
| DirEdit.MoveByInsertSwapDelete | bbs/diredit.cpp:496-503 | Inserting a placeholder, swapping and deleting, with the index adjusted, moves one element of any list. |
| DirEdit.MovedMeans | bbs/diredit.cpp:496-503 | After the move the element taken stands right before the other one, and the rest is the list without it. |
| DirEdit.DeleteUndoesInsert | bbs/diredit.cpp:395-446 | Deleting at the insertion point restores every flag of the words the delete rewrites but perhaps the last. When the insert rewrites the same words, that one comes back if and only if the flag behind it was equal; when it rewrites a word more, all of them come back, and the further word is right if and only if each of its flags equals the one before. |
| DirEdit.InsertDeleteLeavesShift | bbs/diredit.cpp:406-441 | With 31 directories, insert and delete at 0 leave a flag of the second word moved up. |
| DirEdit.InsertDeleteLosesFlag | bbs/diredit.cpp:406-441 | With one directory, insert and delete at 0 lose flag 31. |
| DirEdit.InsertedIsWords | bbs/diredit.cpp:406-409 | A record's flags after an insert determine its words, the carried and masked ones. |
| DirEdit.InsertStaysInsideIff | wwivconfig/newinit.cpp:190-191 | An insert leaves every word behind the directory words alone, whatever they hold, if and only if it does not fill a permitted number that is a multiple of 32. |
| DirEdit.InsertSpills | bbs/diredit.cpp:406-409 | In that case a record whose next word is 1 has it changed, wherever the insert is. |
| DirEdit.InsertShiftsIff | bbs/diredit.cpp:398-400 | The insert's masks are the same on machines that shift modulo 32 if and only if the position in its word is 1 to 30. |
| DirEdit.DeleteShiftsIff | bbs/diredit.cpp:430-431 | The delete's masks are, if and only if the position in its word is not 0. |
| Crc.TableIsEightSteps | bbs/crc.cpp:60-65 | Each of the 256 table entries is the result of eight shift/xor steps. |
| Crc.UpdateIsEightBits | bbs/crc.cpp:120 | One byte through the table is its eight bits, low bit first, through the shift register. |
| Crc.TableIsSerial | bbs/crc.cpp:120-131 | The table-driven register equals the bit-serial one for every buffer and start. |
| Crc.Crc32Buf | bbs/crc.cpp:124-131 | The loop returns the bit-serial CRC, all-ones start and complement included. |
| Crc.PresetInvertsFirst32 | bbs/crc.cpp:126 | The CRC is the complemented remainder, by plain division from zero, of the message with its first 32 bits inverted. |
| Crc.CrcOfNothing | bbs/crc.cpp:126-130 | The empty buffer has the CRC 0. |
| Crc.CheckValue | bbs/crc.cpp:124-131 | The digits 1 to 9 have the CRC 0xCBF43926. |
| Crc.RegisterLinear | bbs/crc.cpp:48-58 | The register is linear in its start and in the bits that enter. |
| Crc.WordAtOnce | bbs/crc.cpp:48-51 | Feeding up to any number of bits of a word is exoring it in and stepping. |
| Crc.StepsInjective | bbs/crc.cpp:60-65 | Any number of shift/xor steps keeps different registers different. |
| Crc.SameCrcIff | bbs/crc.cpp:124-131 | Two buffers of one length have the same CRC if and only if the register started at zero takes their difference to zero. |
| Crc.BurstsDetected | bbs/crc.cpp:120-131 | Two buffers of one length that differ, and only within 32 consecutive bits, have different CRCs. |
| Crc.BitsDiffer | bbs/crc.cpp:52-57 | Different buffers of one length differ in their bits in transmission order. |
| Crc.TableLinear | bbs/crc.cpp:120-131 | The table-driven register is linear in register and buffer. |
| Crc.CrcAffine | bbs/crc.cpp:120-131 | The CRC of three exored buffers is their CRCs exored. |
| Crc.CrcResidue | bbs/crc.cpp:52-58 | Every message followed by its own CRC, low byte first, has the CRC 0x2144DF1C. |
| Formula.Evaluator.CompareStrings | bbs/lpfunc.cpp:612-616 | The search result is the value of the formula's tree, which is built without the text. |
| Formula.Evaluator.CompareStringsWh | bbs/lpfunc.cpp:618-646 | The call terminates, returns the value of the tree read from the cursor on, and leaves the cursor where the tree's reader does, at most one behind the end; no read passes the terminator. |
| Formula.Evaluator.GetToken | bbs/lpfunc.cpp:648-664 | The cursor stops behind the operator found behind blanks and a run of words. |
| Formula.Evaluator.GetValue | bbs/lpfunc.cpp:666-738 | The value of an operand and the cursor are those of the operand's tree. |
| Formula.Evaluator.ReadSigns | bbs/lpfunc.cpp:674-685 | Consecutive exclamation marks count by their parity, and a formula that ends in them is told apart. |
| Formula.Evaluator.ReadWord | bbs/lpfunc.cpp:703-737 | The loop collects the characters up to the next operator and returns whether the text has them, negated as often as there are marks. |
| Formula.FormulaMonotone | bbs/lpfunc.cpp:618-738 | A formula without an exclamation mark can only turn from false to true when more words match. |
| Formula.FlatMeaning | bbs/lpfunc.cpp:618-664 | Words with any number of negations, blanks before and behind them and further words after them, joined by operators, mean the operators grouped to the right with equal binding. |
| Formula.FormulaValue | bbs/lpfunc.cpp:612-738 | The value of such a formula for a text: words the text has, negated as often as there are marks, joined by and and or from the right. |
| Formula.GroupValue | bbs/lpfunc.cpp:693-700 | A parenthesised formula has the value of what is in it, turned round as often as there are marks before it. |
| Formula.MissingOperandIsFalse | bbs/lpfunc.cpp:677-691 | Where an operand is missing before an operator or a blank, or behind marks at the end, it counts as false, whatever the marks. |
| Formula.EmptyOperand | bbs/lpfunc.cpp:703-737 | At the end without marks, or before a closing parenthesis, the operand is the empty word. |
| Formula.WordThenMark | bbs/lpfunc.cpp:637-643 | What stands behind an exclamation mark or an opening parenthesis that follows a word is not looked at. |
| Formula.GroupTakesTheRest | bbs/lpfunc.cpp:637-701 | A parenthesised group of any two or more operands with more behind it, blanks anywhere: the call that read the last operand but one takes the rest of the formula, and the group and its negation take that. |
| Formula.GroupReadAsMeantIff | bbs/lpfunc.cpp:637-701 | A group with more behind it is read as one operand if and only if it has one operand, or two and no odd number of negations. |
| Formula.GroupOfOne | bbs/lpfunc.cpp:637-701 | A group of one operand is read as meant. |
| Formula.GroupAtEnd | bbs/lpfunc.cpp:637-701 | A group with nothing behind it is read as meant. |
| Formula.MisreadGroup | bbs/lpfunc.cpp:618-701 | The group of a, b and c followed by an alternative d is false for a text that has d and not a. |
| Formula.TokenIsNoBlank | bbs/lpfunc.cpp:648-664 | The operator found is never a blank. |
| Formula.WordsBehindBlankIgnored | bbs/lpfunc.cpp:622-664 | Words that follow a word behind a blank are not looked for. |
| Conf.UserAreas.AddUserSub | bbs/confutil.cpp:44-57 | An area is added at the end unless the list has it. |
| Conf.UserAreas.AccessAtLeastOneConf | bbs/confutil.cpp:121-132 | True if and only if all conferences of the set exist and let the user in. |
| Conf.UserAreas.NumberAndPlace | bbs/confutil.cpp:94-115 | Entries without a key are numbered from 1, and the cursor goes to the area with the old number or else to 0. |
| Conf.UserAreas.CreateUserSubs | bbs/confutil.cpp:60-119 | The list becomes that of one conference; without it or access to it nothing changes. |
| Conf.UserAreas.ClearUserSubs | bbs/confutil.cpp:135-190 | The list becomes that of all areas, making a first conference if there is none. |
| Conf.UserAreas.SetUserConf | bbs/confutil.cpp:193-200 | The list for the conference if it exists, and otherwise for all areas. |
| Conf.ListIsFilter | bbs/confutil.cpp:68-93 | A rebuilt list holds exactly the areas to be shown, in their order and none twice. |
| Conf.ConferenceList | bbs/confutil.cpp:68-93 | A conference's list holds exactly the areas that belong to it and whose access string the user passes. |
| Conf.EverythingList | bbs/confutil.cpp:142-175 | The list of all areas holds exactly those whose access string the user passes, whose conferences all exist and let the user in, and which, for message areas, do not ask for ANSI in vain. |
| Conf.EntryKeys | bbs/confutil.cpp:51-99 | Each entry has its message area's key, or a number. |
| Conf.NumbersRise | bbs/confutil.cpp:94-99 | Numbers given to entries without a key rise along the list from 1. |
| Conf.NumbersFollow | bbs/confutil.cpp:94-99 | The first entry without a key has number 1 and each further one the next number. |
| Conf.PlaceOfEntry | bbs/confutil.cpp:100-103 | Looking an entry up by its area finds its own position. |
| Conf.Session.TmpDisableConf | bbs/conf.cpp:60-84 | Switching off and on changes counter, flag, saved positions, lists and cursors as the two state functions say. |
| Conf.ReturnedUnchangedIff | bbs/conf.cpp:76-82 | Off and on again leaves a side unchanged if and only if its list was the one chosen for its current conference and its cursor stood on an entry or at 0. |
| Conf.ChosenIsSettled | bbs/confutil.cpp:193-200 | A list just built for the current conference meets that condition. |
| Conf.NestingRestores | bbs/conf.cpp:60-84 | After any balanced nesting, with any moves inside, conferences are on, the counter is 0, and lists and current areas are unchanged if and only if both sides met that condition at the start. |
| Conf.WithoutConferences | bbs/conf.cpp:63-84 | For a user without the conference flag a balanced run only moves the counter. |
| Conf.OffShowsAllAreas | bbs/conf.cpp:64-72 | While conferences are off the lists hold exactly the areas whose conferences are all open to the user; a system without conferences gets one. |
| Conf.MessageAreaAfter | bbs/conf.cpp:66-71 | Switching off keeps the user in the current message area if it is listed, and otherwise puts the user in the first one listed. |
| Conf.MessageAreaKeptIff | bbs/conf.cpp:66-71 | The message area is kept if and only if the user may see it without regard to conferences, or there is none before and none after. |
| Conf.FileAreaKeptIff | bbs/conf.cpp:66-72 | After switching off the user is in the same file area if and only if it has the number of the current message area, or no file area listed has that number and it is the first one listed. |
| Conf.FileAreaLost | bbs/conf.cpp:66-72 | A state in which switching off moves the user to another file area. |
| Conf.DeniedReturnKeepsAll | bbs/confutil.cpp:62-67 | When access to the conference to return to is gone, the list of all message or file areas stays. |
| Conf.ResetInsideNest | bbs/conf.cpp:86 | Resetting the counter inside a nest makes outstanding calls do nothing; the next pair of calls returns to where the nest began. |

## Left out

- Files: opening, locking, retries, status counters and write errors. The message
  file is a sequence of sections; bytes past its end read as zeros.
- Storage types other than 2 in the text store: the code does nothing for them, and neither does the model.
- MessageFile.MessageBase.SaveFile: texts of more than 127 blocks are excluded, because the code then writes past its list of 128 entries.
- MessageFile.MessageBase.RemoveLink: sections beyond 2040 are excluded, because their byte offset does not fit 32 bits; the same holds for reading and appending.
- MessageFile.MessageBase.LineAdd: asks that the walk from the address ends and that the line fits the 2049-byte buffer. From a free block the code's loop never ends, which `AppendWalkEndsIff` states instead; a longer line would run past the buffer. `AppendableWhen` shows that both hold for messages of a well-formed file and lines of up to about three blocks.
- MailRuns.RunRefines: sends that find no room and empty texts are not steps of a run, since they hand out an address of a message that is not theirs; lines appended fit two blocks and find a free block when they need one.
- Email.MailBase.MultiMail: which recipients a full mailbox or a deleted account excludes is decided before the call; the text of the appended lines is a parameter.
- Email.MailBase.SendoutEmail: the network branch, which builds packets and, for mail written here, touches neither file; the log and the notice to a user who is on-line.
- Counters of users who do not exist, which reading and writing the user file would ignore.
- The packing of short messages at logoff, which follows the same loop as the packing of mail.
- Forward.Forwarding.ForwardMessage: the text of network addresses, and the network's own tables; validity of a system and of an address are parameters. Forwarding entries are taken to name users the visited marks have room for.
- DirEdit.DirBase.MoveDir: the record of flags has a first word that is not flags, and the copy of the record of the user who is on-line; neither is modelled. Shifts by 32, undefined in C, are given the value 0 in the methods.
- Crc.Crc32Buf: the register has 32 bits; where `unsigned long` is wider, the complement's upper half is not modelled, and octets are taken as unsigned.
- Formula.Evaluator.GetValue: the 255 characters of the word buffer, trimming of the word, and the search in the text, which is a parameter from words to truth; character classes are those of the C locale.
- Conf.UserAreas.CreateUserSubs: area numbers are unbounded, where the code keeps them in 16 bits; the session's own copy of the current directory record is not modelled.
- Conf.Session.TmpDisableConf: returning to a conference number outside the user's list throws in the code and is excluded here; in a run it is the outcome `Threw`, which `NestingRestores` shows does not happen.
- `changedsl`, which fills the lists of open conferences, and everything that prompts, draws or logs.
- Transfer batches, process launching, drop files and chat actions: they would add arithmetic and text only.
