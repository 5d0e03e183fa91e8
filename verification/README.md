# shadow-utils: account databases, ID allocation and exact arithmetic

shadow-utils keeps each account file (`passwd`, `group`, `gshadow`, `subuid`, ...) as a doubly linked list in memory,
edits that list, and writes it back. This project models the list and what runs on it, and proves what the tools rely on.

* **The list** (`CommonIO`, `CommonIOLookup`, `CommonIOTraverse`, `CommonIOOpen`, `CommonIOSort`, `CommonIOSortWrt`):
  a class with head, tail and cursor. Every operation is proved against a function on the sequence of entry values
  (`items`); traversal, update in place, sorting and reading a file are theorems about that sequence.
* **Committing and locking** (`Commit`, `Locking`): `commonio_close` over a file system whose every call may fail, with
  the history of its states; the lock, open and reload flags as a state machine over any run of calls.
* **Subordinate IDs** (`SubidRanges`, `SubidList`, `SubidText`, `SubidStore`, `SubidRuns`, `SubidGrants`, `Subordinate`,
  `SubidSlots`): the sweep for free IDs, the coverage test, removal while appending to the walked list, grants and
  releases, the lines of the file, whole runs from file to file, deterministic slots.
* **Group files** (`GroupSplit`, `GroupIO`, `GroupOpen`, `Grpconv`, `GrpconvLoops`, `Grpck`, `GrpckLoops`,
  `GrpckEffect`): splitting and merging groups on NULL-terminated member arrays, conversion to gshadow and back, the
  consistency check and what it keeps. `GroupText`, `GroupStore`, `GroupPieces`, `GroupFiles`, `GrpconvFiles` and
  `GrpckFiles` carry these from one file text to the next, with any limit on the members of a line and both hooks.
* **Other allocators and arithmetic** (`FindNewId`, `Bits`, `Csrand`, `Adds`, `IsExpired`): the search for a free user or
  group ID, exactly uniform sampling, the clamped sum and its use for account expiry.

A module holds either the specification functions of one source file with the theorems about them, or the methods that
implement them on the heap and are tied to those functions by their `ensures` clauses. What such a function does to a list
is also told without it, in record fields, numbers and literal text: these lemmas end in `Exactly`, `Fields`, `ByUid` or
`Kept`. `Wrappers` holds `Option`, `Words` the machine words, `Fields` fields and numbers as text.

## What turned out not to hold as one might expect

* `commonio_sort` does not touch the `prev` of the first NIS entry. On a doubly linked list it is wrong afterwards if some
  entry stood above the one in front of that entry, and right if that one was strictly the greatest (`CommonIOSort.Sort`;
  an input: `CommonIOSort.SortLeavesStaleLink`). Between equal entries `qsort` decides.
* `commonio_sort_wrt` loses `tail` exactly when every entry was matched (`CommonIOSortWrt.SortWrt`; an input:
  `CommonIOSortWrt.AllMatchedLeaveNone`).
* `group_open_hook` loses `tail` exactly when the last entry of the file is absorbed by an earlier one
  (`GroupOpen.OpenHook`; an input: `GroupOpen.SplitGroupDetaches`). A new group is then reported as stored and is not on
  the list exactly when no NIS entry stands there (`GroupOpen.UpdateAfterHook`).
* A granted subordinate range is found in the file exactly when the commit succeeded, its owner is not empty, holds no
  colon or newline and does not start like an NIS line, its line is shorter than 1024 characters, and its count is below
  2^32 (`SubidGrants.GrantIsKeptIff`). A line that cannot be read is lost and its IDs are granted again
  (`SubidGrants.LostIsGrantedAgain`; inputs: `SubidGrants.LostExamples`). `new_subid_range` reports success even if its commit failed
  (`SubidGrants.UnwrittenIsGrantedAgain`; such a run: `SubidGrants.UnwrittenRun`).
* `find_free_range` answers soundly exactly for counts below 2^63 (`SubidRanges.FreeStartSoundExactly`; an input:
  `SubidRanges.HugeCountIsServed`), and its failure value is also a real answer in exactly one case
  (`SubidRanges.NoIdAmbiguous`).
* `remove_range` is exact exactly when the user has no empty entry at 0 (`SubidList.RemoveExactIff`; an input:
  `SubidList.EmptyEntryGains`); a removal that wraps keeps the list good exactly when it hits nothing
  (`SubidList.WrappedRemoveKeepsInvIff`; an input: `SubidList.WrappedRemoveOverlaps`).
* After `grpck` the files are consistent unless a group that is kept and has its gshadow entry has lines that list one
  empty member, and no user has the empty name: the run drops that list without marking the entry
  (`GrpckFiles.ConsistentIff`; an input: `GrpckFiles.LoneExample`). A second run has nothing to do in any case.
* An empty name at the end of a printed list of members is not read back. With a limit on the members of a line this
  holds of every piece, so a changed group comes back whole exactly when no piece ends with one (`GroupPieces.AgainIff`,
  `GroupFiles.SplitThenMerge`, `GrpconvFiles.ReturnedIff`; an input: `GroupPieces.SplitLosesEmptyName`). Then group and
  gshadow disagree, and a second `grpconv` changes gshadow exactly if they do (`GrpconvFiles.GrpconvOnce`).
* Where `lckpwdf` is used, `commonio_lock` gives up its lock when a try fails, even while another database is locked: the
  process keeps libc's lock as long as its own exactly when that never happens (`Locking.CoveredIff`,
  `Locking.RunIsCovered`; an input: `Locking.DropExample`).
* The comment at lib/bit.h:27 names `stdc_bit_ceilul`, but `bit_ceilul` gives the next power *strictly* above its
  argument; the model follows the code (`Bits.BitCeilIsNextPower`).

## Model

| member | source | states |
|---|---|---|
| CommonIO.Database.AddOneEntry | lib/commonio.c:472-486 | The new entry becomes the last of a well-formed list and the tail; back links stay right if they were. |
| CommonIO.Database.AddOneEntryNis | lib/commonio.c:504-535 | The new entry stands before the first NIS entry, or last if there is none, and both chains stay well formed. |
| CommonIO.Database.NextEntryByName | lib/commonio.c:965-985 | Delivers the first parsed entry of that name from the given position on, or null exactly if there is none. |
| CommonIO.Database.Locate | lib/commonio.c:1142-1157 | An open database delivers the first record of the name and moves its cursor there; otherwise neither result nor cursor move. |
| CommonIO.Database.Update | lib/commonio.c:995-1044 | Succeeds exactly on a writable database without a repeated name, and then is the sequence update `Updated`; a refusal changes nothing. |
| CommonIO.Database.Append | lib/commonio.c:1047-1076 | On a writable database appends one changed entry and nothing else; otherwise changes nothing. |
| CommonIO.Database.DelEntry | lib/commonio.c:1079-1098 | Removes exactly the given entry, keeps both chains and the tail right, and moves a cursor that stood on it to its successor. |
| CommonIO.Database.Remove | lib/commonio.c:1103-1131 | Succeeds exactly for a name that occurs once in a writable database and removes that entry; a refusal changes nothing. |
| CommonIO.Database.Rewind | lib/commonio.c:1164-1172 | After a rewind a traversal has all records of the list ahead of it, in order. |
| CommonIO.Database.Next | lib/commonio.c:1179-1202 | Delivers the head of the records still ahead and leaves the rest ahead; at the end it delivers nothing and is rewound. |
| CommonIOLookup.UpdatedEffect | lib/commonio.c:995-1044 | An update succeeds unless its name is repeated; then that name finds the new record, once, and every other name finds and counts what it did. |
| CommonIOLookup.RemovedEffect | lib/commonio.c:1103-1131 | A removal succeeds exactly for a name that occurs once; then that name is gone and every other one finds and counts what it did. |
| CommonIOLookup.UpdatedExactly | lib/commonio.c:995-1044 | In fields: an update rewrites the one entry of that name and keeps its line, fails for two of them, and puts an unknown name directly in front of the first entry whose name or line starts with `+` or `-`, the others keeping their order. |
| CommonIOLookup.RemovedExactly | lib/commonio.c:1103-1131 | A removal takes out the one entry of that name, the others keeping their order, and fails for none or several. |
| CommonIOLookup.FindExactly | lib/commonio.c:1142-1157 | A lookup delivers the record of the first entry whose name it is. |
| CommonIOLookup.TimesExactly | lib/commonio.c:965-985 | The count of a name is the number of positions whose record has it. |
| CommonIOLookup.UpdatedKeepsRaw | lib/commonio.c:995-1044 | An update leaves the unparsed lines, in order, as they were. |
| CommonIOLookup.RemovedKeepsRaw | lib/commonio.c:1103-1131 | So does a removal. |
| CommonIOTraverse.UpdateEach | lib/commonio.c:1164-1202 | Rewind and repeated next deliver every record exactly once and in order although any of them are updated under the cursor; the list then holds exactly those updates whose name it does not repeat, and every other entry as it was. |
| CommonIOTraverse.ParsedExactly | lib/commonio.c:1179-1202 | What a traversal delivers, by positions: every entry that has a record, once, in list order. |
| CommonIOOpen.LinesThenJoin | lib/commonio.c:603-614 | The lines read from a text file make up exactly that file. |
| CommonIOOpen.JoinThenLines | lib/commonio.c:603-614 | Lines without newlines, written out, are read back as the same lines. |
| CommonIOOpen.ReadAll | lib/commonio.c:602-638 | Builds a well-formed list with one entry for each line, NIS lines without a record; fails exactly when the last line has no newline. |
| CommonIOOpen.Open | lib/commonio.c:540-668 | Succeeds exactly if the database was closed, is locked when opened for writing, and the file could be opened and read (or may be created); then the list is what the file says, rewound and unchanged. |
| CommonIOOpen.OpenedExactly | lib/commonio.c:540-668 | A missing file opens as the empty list exactly if it may be created; a file is refused exactly if it does not end with a newline, and otherwise each of its lines gives one entry, without a record if it starts with `+` or `-`. |
| CommonIOOpen.UnchangedIsVerbatim | lib/commonio.c:811-834 | A list nobody changed is written as it was read, unparsed and NIS lines included. |
| CommonIOOpen.EditedInPlace | lib/commonio.c:811-834 | A changed entry is printed where its line stood and all other lines are copied; if it cannot be printed nothing can be written. |
| CommonIOOpen.OpenThenCommit | lib/commonio.c:540-668 | What is opened and committed without a change is the same text. |
| CommonIOSort.Sort | lib/commonio.c:675-753 | From `head`: a sorted permutation of the entries before the first NIS line, then the rest unchanged; tail right; the exact state of the back links for any chain, and for a doubly linked list, told from the input: all right if the entry before that line was strictly the greatest, one wrong if a greater one stood before it. |
| CommonIOSort.SortsExactly | lib/commonio.c:675-753 | Before the first line that starts with `+` or `-` stand the same entries, the parsed ones first and ordered by the comparison; from that line on nothing has moved. |
| CommonIOSort.LastAfterSort | lib/commonio.c:723-723 | Whatever `qsort` does with ties, an entry strictly above all others is sorted last, and one below some other is not. |
| CommonIOSortWrt.SortWrt | lib/commonio.c:758-804 | From `head`: the matched entries in passwd order, then the unmatched ones; back links right; tail right if and only if some entry was unmatched or the list is empty. |
| CommonIOSortWrt.ArrangedPermutes | lib/commonio.c:758-804 | The arrangement loses and repeats no entry. |
| CommonIOSortWrt.UnpickedIsTheRest | lib/commonio.c:790-804 | With unique names the unmatched part is every entry whose name is not listed, in its original order. |
| CommonIOSortWrt.PickedInOrder | lib/commonio.c:768-788 | With distinct names to match, the matched part comes in the order of those names. |
| CommonIOSortWrt.ArrangedExactly | lib/commonio.c:758-804 | With unique names, told without the arrangement: the same entries, first those the other database names, in the order of its names, then the others in the order they had. |
| Commit.WriteAll | lib/commonio.c:811-834 | The run succeeds exactly if no write fails and every entry can be printed; the stream then holds the complete serialization of the list, and only the temporary file was touched at any moment. |
| Commit.FileSystem.CreateWithPerms | lib/commonio.c:207-233 | Delivers a fresh temporary file whose owner and mode were set exactly if no call fails; if one does, no such file is used. |
| Commit.FileSystem.Backup | lib/commonio.c:235-287 | Succeeds exactly if no call fails. Success makes the `-` file the old content, its owner and mode set and its content synced, and changes nothing else; failure changes temporary files only; at every moment the named file is the old one. |
| Commit.CommitChanges | lib/commonio.c:856-955 | Succeeds exactly if no call fails and every entry can be printed. Under any failing calls the named file is at every moment the old one or the whole new text; failure leaves the old one, success the new one with the old in the `-` file; the file installed had its owner and mode set and was synced. |
| Commit.Close | lib/commonio.c:838-963 | The same for the whole call: a changed writable database is committed exactly if the hook and every call succeed and every entry can be printed, any other open one is closed with success and no file changed; 0 means old content; the list is freed and a reload is asked for exactly after a commit. |
| Locking.Process.LockDb | lib/commonio.c:354-415 | Obtains the lock if it is held already or a try is granted. With `lckpwdf` there is one try, under libc's lock, which is taken for the first lock and given up if the try fails; without it only root tries more than once. The count rises exactly for a new lock. |
| Locking.CoveredIff | lib/commonio.c:364-388 | If every lock goes through `lckpwdf`, a call keeps libc's lock held while any lock is held if and only if it is not a failed try beside another lock. |
| Locking.RunIsCovered | lib/commonio.c:364-435 | In every run without such a failure libc's lock is held exactly while some database is locked. |
| Locking.Process.OpenDb | lib/commonio.c:540-600 | The flags after an open, including the refusals and the read-only flag they leave behind. |
| Locking.Process.CloseDb | lib/commonio.c:838-963 | The flags after a close; only a changed database open for writing commits, and a commit asks for a reload. |
| Locking.Process.DecLockCount | lib/commonio.c:417-435 | The count falls by one, and reaching zero flushes a pending reload. |
| Locking.Process.UnlockDb | lib/commonio.c:438-463 | Closes read-only, which commits nothing and cannot fail (the failure branch is proved unreachable), then releases the lock. |
| Locking.StepKeepsInv | lib/commonio.c:323-463 | Each call keeps: open for writing implies locked, the count equals the number of locked databases, a pending reload implies a held lock. |
| Locking.RunKeepsInv | lib/commonio.c:323-463 | So does every run of calls on any number of databases. |
| Locking.CommitsAreLockedAndFlushed | lib/commonio.c:417-435 | In every run a commit happens only under its database's lock, and when no lock is left every commit has been flushed. |
| Locking.UnlockDiscards | lib/commonio.c:438-463 | In every run an unlock without close commits nothing, touches no other database, succeeds exactly if the lock was held, and flushes exactly if it was the last. |
| Locking.LockExactly | lib/commonio.c:354-415 | Without `lckpwdf` a lock is obtained exactly if it is held, or granted at the first try, or for root at any try; with it exactly if libc's lock is there and it is held or granted at once. Then the database is locked and a new lock is counted. |
| Locking.OpenExactly | lib/commonio.c:540-600 | A closed database is opened exactly if its file was read, or is missing and may be created, and it is locked when opened for writing; it is then open, unchanged, and writable as asked. |
| Locking.CloseExactly | lib/commonio.c:838-963 | A changed database open for writing is committed, and counted as a commit that asks for a reload, exactly if its close succeeds; every other open database is closed with success. |
| GroupIO.Truncate | lib/groupio.c:422-426 | The array keeps exactly its first `max` members. |
| GroupIO.Shift | lib/groupio.c:427-437 | The array holds exactly the members from position `max` on, every access inside the allocation. |
| GroupIO.MergeMembers | lib/groupio.c:332-371 | The merged array holds the first list followed by the new names of the second, in an allocation that is just counted to suffice. |
| GroupIO.SplitGroups | lib/groupio.c:385-446 | The walk that inserts behind itself ends, and the list shows the split of every changed entry that is too large. |
| GroupIO.CloseHook | lib/groupio.c:88-97 | A limit of 0 splits nothing, any other one splits. |
| GroupOpen.MergeTurn | lib/groupio.c:271-283 | One merge joins lines and members into the first entry and unlinks the second; both chains stay right. |
| GroupOpen.OpenHook | lib/groupio.c:253-290 | The list shows the merged groups and is doubly linked; `tail` is right if and only if the last entry was not absorbed by an earlier one of its group. |
| GroupOpen.UpdateAfterHook | lib/commonio.c:995-1044 | With such a `tail` an update succeeds as ever, but the list shows it if and only if the name was on it or an NIS entry is; else the list is as before. |
| GroupSplit.PiecesPartition | lib/groupio.c:385-446 | M > max members give ceil(M / max) entries of the same group, none empty, all but the last full, whose members in order are the original ones. |
| GroupSplit.MergeAllExact | lib/groupio.c:253-290 | Opening leaves one entry for each (name, password, GID) and each group lists exactly the members that some entry of it listed. |
| GroupSplit.MergeAllOnce | lib/groupio.c:253-290 | Merging again changes nothing. |
| GroupSplit.UnionKeepsNoDup | lib/groupio.c:352-371 | Merging adds no repeated member and keeps the first list in front. |
| GroupSplit.MergeBlocks | lib/groupio.c:253-290 | Entries that come in blocks of one group each are merged into exactly one entry for each block, in order. |
| GroupSplit.SplitExactly | lib/groupio.c:385-446 | Exactly the changed entries with more members than the limit are split; each such block has the name, password and GID of its entry, and every other entry is as it was. |
| GroupSplit.MergeExactly | lib/groupio.c:253-290 | Entries are merged exactly if name, password and GID agree: no two such are left, each group lists the members its entries listed, and an entry alone of its name, password and GID, or without a record, is as it was. |
| GroupFiles.OpenedEntries | lib/groupio.c:253-322 | Every entry an open delivers is the merge of its own lines, each of the same group; with a limit no two entries are of one group. |
| GroupFiles.Reopened | lib/groupio.c:253-446 | Of a list split, printed, read and merged, the next open delivers one entry for each entry, in order; untouched groups of several lines included, and the lines are the file's text. |
| GroupPieces.AgainIff | lib/groupio.c:332-446 | A list of members printed in pieces comes back as it was if and only if no piece ends with an empty name, and never with a name that was not there; one that is split must not repeat a name. |
| GroupFiles.SplitThenMerge | lib/groupio.c:253-446 | A group file is opened, edited by any updates and removals, split, printed, read and merged: if no group that is split repeats a member, every entry's record is back in order if and only if no piece of a changed group ends with an empty name. The lines are the file's text in any case. |
| GroupText.GroupReadsBack | lib/groupio.c:64-86 | A group that `group_put` accepts is one line, and `sgetgrent` reads it back but for one empty last member. |
| GroupText.SgrpReadsBack | lib/sgroupio.c:166-197 | So is a gshadow entry, for both its lists. |
| GroupText.ListReadsBack | lib/shadow/group/sgetgrent.c:38-55 | A printed list of names is read back without its last name if that is empty, so as it was exactly if it is not. |
| GroupText.PutExactly | lib/groupio.c:64-86 | A group is printed exactly if its name, password and members hold no colon or newline, the members no comma, and its GID is not 2^32-1; then as `name:passwd:gid:member,member` on one line. |
| GroupText.ParseExactly | lib/shadow/group/sgetgrent.c:60-91 | A line of four fields is a group exactly if its third is a number below 2^32; the fields are its name, password, GID and list of names. |
| GroupText.PutSgrpExactly | lib/sgroupio.c:166-197 | A gshadow entry is printed exactly if no field holds a separator, as `name:passwd:adm,adm:member,member` on one line. |
| GroupText.ParseSgrpExactly | lib/shadow/gshadow/sgetsgent.c:33-59 | Every line of four fields is a gshadow entry of these fields. |
| Grpconv.OrphansExact | src/grpconv.c:183-198 | The loop that rewinds after each removal ends, fails exactly on a repeated orphan, and otherwise drops exactly the gshadow entries without a group. |
| Grpconv.ConvertExact | src/grpconv.c:204-242 | The conversion loop succeeds exactly when each group's name is unique in both files, and then every group password is `x`. |
| Grpconv.GrpconvSucceeds | src/grpconv.c:183-242 | `grpconv` succeeds if and only if no name is repeated in either file. |
| Grpconv.GrpconvEffect | src/grpconv.c:183-242 | Afterwards gshadow has exactly group's names, each once, with the group's members, its administrators kept, and the group's password unless that was `x`; unparsed lines stay. |
| Grpconv.GrpconvFields | src/grpconv.c:183-242 | In fields, for each group: group keeps its name, GID and members and gets the password "x"; its gshadow entry has the administrators it had, none if it is new, the members of the group, and the group's password, or its own if that was "x". |
| GrpconvFiles.GrpconvOnce | src/grpconv.c:183-257 | On the files it wrote, another run succeeds and changes no record of group; it changes none of gshadow if and only if every group came back with the members gshadow has, which is so without a limit. |
| Grpconv.UnconvertExact | src/grpunconv.c:185-199 | `grpunconv` fails exactly when a group that needs its password back has a repeated name, and otherwise restores each in place and changes nothing else. |
| Grpconv.UnconvertFields | src/grpunconv.c:185-199 | In fields: a group with the password "x" and a gshadow entry gets that entry's password and keeps all else; every other entry is as it was. |
| GrpconvFiles.ThereAndBack | src/grpunconv.c:185-207 | From the two files to gshadow and back, with any limit: `grpunconv` succeeds on what `grpconv` wrote, its group file can be written, and it has every unparsed line as it was and every group with its effective password, name, GID and the members that come back. |
| GrpconvFiles.ReturnedIff | lib/shadow/group/sgetgrent.c:38-56 | Those are all its members exactly when no piece of the list ended with an empty name. |
| GrpconvLoops.OrphanLoop | src/grpconv.c:183-198 | The loop over both databases ends and computes the orphan removal on the lists. |
| GrpconvLoops.ConvertLoop | src/grpconv.c:204-242 | The loop whose cursor is moved by its own updates computes the conversion on the lists. |
| GrpconvLoops.RunGrpconv | src/grpconv.c:183-242 | Both loops together compute the conversion and fail exactly when it does. |
| GrpconvLoops.RunGrpunconv | src/grpunconv.c:185-199 | The loop computes the restoration and fails exactly when it does. |
| GrpckLoops.DeleteMember | src/grpck.c:168-181 | Removes the first occurrence of the member from the array and keeps the others in order. |
| GrpckLoops.CheckMembers | src/grpck.c:394-433 | The array keeps, in order, exactly the members that exist, and a change is reported exactly if one was removed. |
| GrpckLoops.CheckGroupFile | src/grpck.c:472-677 | The loop that deletes entries while it walks them computes the group pass. |
| GrpckLoops.CheckSgrpFile | src/grpck.c:683-824 | The loop that deletes entries while it walks them computes the gshadow pass. |
| GrpckLoops.CheckFiles | src/grpck.c:862-869 | Both passes together compute `Checked`. |
| Grpck.CheckedConsistent | src/grpck.c:472-824 | The lists in memory after both passes with every answer yes: no failure exit is taken, names are unique and equal in both, only NIS lines of group stay unparsed, every member and administrator exists, and no group name is lost. |
| Grpck.PasswordsKept | src/grpck.c:617-655 | A group that neither file repeats goes by the same password afterwards. |
| GrpckEffect.GroupsKept | src/grpck.c:472-677 | Of the group file exactly the NIS lines and the last entry of each name stay, in order. The lines are untouched; each entry keeps its name, its GID, exactly those of its members that are users, in order, and its password unless that moves to a new gshadow entry. |
| GrpckEffect.ShadowsKept | src/grpck.c:683-824 | Of gshadow exactly the last entry of each name that group has stays, with its name, its password and exactly those of its members and of its administrators that are users; a group it lacked has a new entry with the group's password and existing members; there is no other. |
| GrpckFiles.ConsistentIff | src/grpck.c:472-824 | With any limit, the files a run commits, read again, are consistent if and only if some user has the empty name or no kept group with a gshadow entry had lines listing one empty member. |
| GrpckFiles.SecondRunIdle | src/grpck.c:853-872 | With any limit, a second run on the files the first one left deletes, adds and marks nothing in either list, and leaves both texts as they are. |
| GrpckFiles.CommitsIff | lib/groupio.c:64-97 | With any limit, a run can write both files if and only if every entry it marked passes the field checks of `group_put` and `gshadow_put`. |
| SubidRanges.RangeOrder | lib/subordinateio.c:309-335 | The comparison is a total order and ties only identical entries. |
| SubidRanges.RangesByStart | lib/subordinateio.c:309-335 | Ranges come by start, then by count, then by owner, whose order is decided by the first character that differs. |
| SubidRanges.SweepComplete | lib/subordinateio.c:365-396 | Whatever the order of the list, the sweep never passes a start that fits. |
| SubidRanges.SweepSoundExactly | lib/subordinateio.c:365-396 | The sweep is sound for all requests exactly when no range reaches back into IDs not yet passed. |
| SubidRanges.SortedIsSafe | lib/subordinateio.c:361-396 | A sorted list is such a list. |
| SubidRanges.SweepFindsLeast | lib/subordinateio.c:365-396 | On such a list, overlapping and out-of-window ranges included, it finds the least start that fits and fails exactly when there is none. |
| SubidRanges.FreeStartLeast | lib/subordinateio.c:347-400 | The whole search for 0 < count < 2^63: the least start in the window with `count` free IDs, or none exists. |
| SubidRanges.FreeStartSoundExactly | lib/subordinateio.c:347-400 | A reported start has `count` free IDs exactly when `count` survives the conversion to `intmax_t`. |
| SubidRanges.FreeStartOutside | lib/subordinateio.c:347-400 | A request for no IDs is refused, and one for 2^63 or more is answered as one for a single ID. |
| SubidRanges.FreeStartIsFree | lib/subordinateio.c:347-400 | Whatever the count, a reported start is itself free. |
| SubidRanges.NoIdAmbiguous | lib/subordinateio.c:399-399 | The failure value is a real answer exactly when ID 2^32-1 alone is asked for and left. |
| SubidRanges.CutExact | lib/subordinateio.c:451-520 | The pieces of an entry hold each ID outside the removed range as often as the entry did and none inside it, keep the owner and are not empty. |
| SubidRanges.TailIsKept | lib/subordinateio.c:501-515 | An appended tail piece is left alone when the walk reaches it. |
| SubidRanges.CutWrapped | lib/subordinateio.c:451-520 | When the removed range wraps, a non-empty entry keeps all its IDs. |
| SubidList.RemoveExact | lib/subordinateio.c:440-524 | The user's IDs lose exactly the removed range, with multiplicity, and other users' entries are the same. |
| SubidList.RemoveExactIff | lib/subordinateio.c:440-524 | On parsed entries, for every removal up to the last `unsigned long`, that is so exactly when the user has no empty entry at 0. |
| SubidList.RemoveByUid | lib/subordinateio.c:440-524 | In UIDs, whatever names the ranges are recorded under: the owner's UID loses exactly the removed range, with multiplicity, every other UID loses and gains nothing, and every other entry is on the list as often as before. |
| SubidList.HaveByUid | lib/subordinateio.c:556-602 | The coverage test in UIDs: each ID of a non-empty range lies in a range recorded for the same string or, in the system files, for any name of the same UID. |
| SubidList.RemoveKeepsInv | lib/subordinateio.c:440-524 | Removal keeps pairwise disjoint non-empty ranges inside the ID space. |
| SubidList.WrappedRemoveKeepsInvIff | lib/subordinateio.c:451-520 | A removal whose end wraps keeps that exactly when it hits no entry. |
| SubidList.SortKeepsInv | lib/subordinateio.c:361-363 | The sort before the sweep keeps every range and makes the list fit to sweep. |
| SubidList.SortedSearchIsLeast | lib/subordinateio.c:347-400 | On any list without NIS lines, overlapping ranges included, sorting and sweeping delivers the least start at which the count is free among the ranges of that list, or none is. |
| SubidList.GrantIsLeast | lib/subordinateio.c:1068-1076 | A grant takes the least start from which `count` IDs are free and appends the range; failure means no such start but 2^32-1. |
| SubidList.GrantKeepsInvIff | lib/subordinateio.c:1068-1076 | In memory the ranges stay disjoint and inside the bounds the parser checks exactly when nothing was granted or the count is below 2^32; `SubidGrants.GrantIsKeptIff` says what the file keeps. |
| SubidGrants.GrantThenRelease | lib/subordinateio.c:1016-1137 | Over two calls with the commits and rereading between: release after grant restores the user's IDs in the file and leaves the other users' entries the same, for an owner that resolves to a user. |
| SubidList.ReleaseUnknownOwner | lib/subordinateio.c:158-175 | For any other owner a release does nothing. |
| SubidText.PrintThenParse | lib/subordinateio.c:93-144 | A range printed on one line is read back as it was exactly when `ReadsBack` holds (owner, length, bounds), and else as a line without a record; it is an NIS line exactly if the owner is like one. |
| SubidText.PutExactly | lib/subordinateio.c:136-144 | A range is printed as its owner, start and count in decimal, with colons between, on one line. |
| SubidText.ParseExactly | lib/subordinateio.c:93-126 | A line of three fields is a range exactly if it is shorter than 1024 characters, no field is empty, and its numbers lie below 2^32 and so does the range they give. |
| SubidStore.CommitKeepsIff | lib/subordinateio.c:93-144 | Committing and reading keeps the ranges of a list exactly when every marked entry is read back. |
| SubidRuns.SessionKeepsInv | lib/subordinateio.c:1016-1137 | One call, from file text to file text, keeps a file of pairwise disjoint non-empty ranges. |
| SubidRuns.RunsAreSafe | lib/subordinateio.c:1016-1137 | Every sequence of grants and releases, failing commits included, keeps that from file to file. |
| SubidRuns.GrantStays | lib/subordinateio.c:1016-1137 | In every run an ID that was granted stays recorded for its owner until its user's release takes it. |
| SubidRuns.NeverGrantedTwice | lib/subordinateio.c:1016-1137 | Between two calls that grant the same ID there is a release of it by the user of its owner. |
| SubidGrants.GrantIsKeptIff | lib/subordinateio.c:1068-1088 | For any owner and count: the file gives the owner what the call granted if and only if the commit succeeded and the printed line can be read. |
| SubidGrants.LostIsGrantedAgain | lib/subordinateio.c:1068-1088 | After a grant written as one line that cannot be read, for a count below 2^63 and an owner unlike an NIS line, any grant of the same count from the same bound, to whomever, gets the same start. |
| SubidGrants.LostExamples | lib/subordinateio.c:93-144 | From an empty file, owner "a:b", the empty owner, and all 2^32 IDs are each granted twice by two committed calls. |
| SubidGrants.UnwrittenIsGrantedAgain | lib/subordinateio.c:1076-1087 | After a grant that was reported but not committed, every committed grant of the same count from the same bound, to whomever, gets the same start. |
| Subordinate.RemoveRange | lib/subordinateio.c:440-524 | The walk that appends to the list it walks ends with exactly the computed removal; it fails exactly when the database is not writable and an entry must be split, and then has cut only the entries before that one. |
| Subordinate.FindRange | lib/subordinateio.c:207-269 | Delivers a non-empty range of the owner that holds the ID, or none exactly if there is none. |
| Subordinate.HaveRange | lib/subordinateio.c:556-602 | True exactly when every single ID of the range lies in some non-empty range of the owner, whichever range is found first. |
| Subordinate.HaveRangeOpening | lib/subordinateio.c:556-602 | The same on a database that may be closed: then the file's ranges decide, a file that cannot be opened holds nothing, and the database is closed again. |
| Subordinate.FindFreeRange | lib/subordinateio.c:347-400 | Sorts the list unless the request is refused; on any list without NIS lines and for a count below 2^63 the result is the least start that is free among the ranges given, or 2^32-1. |
| Subordinate.AddRange | lib/subordinateio.c:413-427 | Appends the range unless the owner holds all of it already. |
| Subordinate.FindReusable | lib/subordinateio.c:1055-1066 | Delivers the first recorded range of the user that is large enough, or none exactly if there is none. |
| Subordinate.ReusedByUid | lib/subordinateio.c:1055-1066 | In UIDs: a range is reused exactly if the owner's UID has one of at least `count` IDs under any name, and it is the first of these. |
| Subordinate.NewSubidRange | lib/subordinateio.c:1054-1076 | With reuse hands out that range and leaves the list alone; otherwise carries out the grant relation on the list. |
| Subordinate.ReleaseSubidRange | lib/subordinateio.c:1089-1137 | Always succeeds on the open writable list and carries out the removal. |
| SubidSlots.AssignExactIff | lib/find_new_sub_uids.c:56-133 | The stored start is the exact one exactly when that fits the 32-bit type. |
| SubidSlots.AssignedInWindow | lib/find_new_sub_uids.c:56-133 | With a window below 2^32 every assigned range lies inside it without overflow. |
| SubidSlots.MonotoneWithoutWrap | lib/find_new_sub_uids.c:56-133 | Without wrapping a higher UID gets a range that begins after the lower one's ends. |
| SubidSlots.EqualOrDisjoint | lib/find_new_sub_gids.c:56-133 | With wrapping two ranges coincide or are disjoint, and coincide exactly when the offsets agree modulo the slot count. |
| SubidSlots.AssignedIff | lib/find_new_sub_uids.c:56-133 | A UID gets a range exactly if it is not below the minimum, the window is neither empty nor the whole of `unsigned long`, a non-empty range fits into it, and the one at the UID's offset does or wrapping is allowed. |
| SubidSlots.AssignedExactly | lib/find_new_sub_uids.c:56-133 | In a 32-bit window it starts at the UID's offset counted in ranges, or, if that does not fit, at the offset modulo the number of ranges that do. |
| FindNewId.ScanLocal | lib/find_new_uid.c:247-274 | One pass gives the highest and lowest local ID in the window and an index of exactly the used ones, written inside its bounds. |
| FindNewId.SearchUp | lib/find_new_uid.c:410-484 | Finds the least eligible ID from the start on, or none is eligible there. |
| FindNewId.SearchDown | lib/find_new_uid.c:301-376 | Finds the greatest eligible ID from the start down, or none is eligible there. |
| FindNewId.FindNewId | lib/find_new_uid.c:30-503 | In numbers: a normal ID lies between UID_MIN, else 1000, and UID_MAX, else 60000; a system one between SYS_UID_MIN, else 101 and never 0, and SYS_UID_MAX, else UID_MIN - 1. A preferred ID that is free is granted, a system one from 1 on. Otherwise the result is the ID nearest to the local ones among the free IDs past them all, above for a normal and below for a system ID, or the first free one of the window; failure means there is none. |
| Bits.BitCeilIsNextPower | lib/bit.h:28-32 | For positive x the result is the least power of two strictly above x, modulo 2^64. |
| Csrand.BoundIsRemainder | lib/csrand.c:119-119 | `-n % n` on 32 bits is 2^32 mod n. |
| Csrand.Uniform32 | lib/csrand.c:111-130 | Of the 2^32 raw values exactly floor(2^32 / n) are mapped to each k < n. |
| Csrand.AcceptsMoreThanHalf | lib/csrand.c:111-130 | More than half of the raw values are accepted. |
| Csrand.CsrandUniform32 | lib/csrand.c:111-130 | The loop returns the value of the first accepted raw number; for n = 0 the raw number itself. |
| Csrand.MaskCovers | lib/csrand.c:138-139 | The mask is one less than a power of two that covers the limit and is at most twice as long. |
| Csrand.UniformSlow | lib/csrand.c:134-147 | Each value below the limit, all 64-bit values for n = 0, has the same number of raw values. |
| Csrand.SlowAcceptsHalf | lib/csrand.c:134-147 | At least half of the raw values are accepted. |
| Csrand.CsrandUniformSlow | lib/csrand.c:134-147 | The loop returns the value of the first accepted raw number. |
| Csrand.UniformAll | lib/csrand.c:79-85 | The choice between the two samplers is uniform for every n. |
| Csrand.AcceptsHalf | lib/csrand.c:79-85 | Whichever is chosen, at least half of all raw values give a result below n. |
| Csrand.CsrandUniform | lib/csrand.c:79-85 | The call returns the value of the first raw number its distribution accepts. |
| Csrand.IntervalUniform | lib/csrand.c:92-95 | Every number of [min, max] is equally likely, the full width included. |
| Csrand.IntervalAcceptsHalf | lib/csrand.c:92-95 | At least half of all raw values give a number of the interval. |
| Csrand.CsrandInterval | lib/csrand.c:92-95 | The call returns the value of the first accepted raw number, which lies in [min, max]. |
| Adds.AddsL2 | lib/adds.h:31-43 | The exact sum clamped to `long`, with `errno` set exactly on overflow. |
| Adds.EndsOverflow | lib/adds.h:57-64 | Smallest plus largest overflows only if the whole sum does, on the same side. |
| Adds.AddsLN | lib/adds.h:46-67 | The exact sum of any number of addends clamped to `long`; `errno` changes exactly for no addend or an overflow. |
| IsExpired.NeverDecreases | lib/isexpired.c:42-103 | The status never decreases as the day advances. |
| IsExpired.DisabledOnlyAfterMaxAge | lib/isexpired.c:42-103 | 2 is reported only from the day the maximum age is over and the inactivity period has passed. |
| IsExpired.ClampIsExact | lib/isexpired.c:75-100 | The comparison with the clamped sum is the exact one on every day but the extremes of `long`. |
| IsExpired.StatusByDates | lib/isexpired.c:42-103 | With all password fields set and no expiry date the status is decided by two exact dates, except on the extreme days of `long`. |
| IsExpired.StatusExactly | lib/isexpired.c:42-103 | In fields, on any day: 3 exactly from a set expiry date on; otherwise 1 if the change date is 0 and the password field is "x", or if the maximum age alone is over, 2 if the inactivity period after it is over too, else 0; without a shadow entry 0. The last day of `long` counts as any later day. |

## Left out

- Commit.Close: the close hook is a given success or failure on the list it leaves; the hook of group, which changes the list, is `GroupIO.CloseHook`. SELinux contexts, ownership and times of files are not modelled.
- Commit.CommitChanges: the open stream reads what the named file holds when closing begins; a file replaced by a program that ignores the lock is not modelled.
- CommonIOOpen.Open: a read error and a failing open hook are one outcome; the hook of group is `GroupOpen.OpenHook`. Bytes are characters and a NUL byte inside a line is an ordinary one.
- CommonIOSort.Qsort: libc `qsort` is represented by an insertion sort that meets its contract; no order is claimed among entries without a record, which the comparators do not order either.
- CommonIOSortWrt.SortWrt: reads the names of the other database first and then matches them one by one, where the source interleaves the two.
- Locking.Process.LockDb: the lock file protocol and `lckpwdf` are a given success or failure for each try; the TCB variant is not modelled.
- FindNewId.FindNewId: the upper limit is below 2^32-1, because the source loops `id <= max` on the same type; local and NSS lookups are fixed sets. The GID variant is the same model.
- GrpckLoops.CheckFiles: every question is answered with yes and gshadow exists; messages, the `errors` flag, the read-only and the sort modes are not modelled. The commit is in `GrpckFiles`.
- GrpckLoops.CheckGroupFile: the same answers; the checks of names and GIDs only print a message and are not modelled.
- GrpckLoops.CheckSgrpFile: the same answers.
- GrpckFiles.SecondRunIdle: both commits of the first run succeeded, and the limit is the same for both runs; a run that changes nothing writes nothing, which leaves the same text. A run in which only one of the two files could be written is not covered.
- GrpconvFiles.GrpconvOnce: both commits succeeded, and the limit stays the same. It is about records: each printing can drop one more empty name at the end of a list, so the text can still change.
- GroupFiles.SplitThenMerge: an update gives no entry a name that looks like an NIS one.
- GroupText.GroupReadsBack: libc's `putgrent` is taken to print the four fields, as it does for a name that is not an NIS one.
- SubidGrants.LostIsGrantedAgain: an owner with a newline is excluded, because what follows the newline is a line of its own that may be read as another owner's range; so is an owner that makes the line an NIS line, behind which the sort no longer reaches.
- SubidRuns.NeverGrantedTwice: for owners the file can hold with any two 32-bit numbers, counts below 2^32, releases that do not wrap, and calls whose commits succeeded; `SubidGrants` says what happens otherwise. The user lookup stays the same during a run.
- GrpckLoops.DeleteMember: finds the member by its name, where the source compares addresses; in `check_members` all earlier members exist, so both find the same cell. Records on the list hold their members as values and the array is built from them for the check.
- GrpconvLoops.RunGrpconv: records are values, so the pointers that one record lends another (`sg_mem = gr_mem`) are copies, as the update makes them.
- Subordinate.HaveRange: the database is open and no entry wraps, which the bounds of the parser ensure; `Subordinate.HaveRangeOpening` is the whole function.
- Subordinate.FindFreeRange: the entries lie within the bounds the parser enforces.
- Subordinate.NewSubidRange: the lock, open and close calls around the body; the return with a reused range, which skips the closing and unlocking, is only seen as leaving the list alone.
- Subordinate.ReleaseSubidRange: the lock, open and close calls around the body; `SubidRuns.Session` adds reading and committing the file.
- Csrand.CsrandUniform32: the random source is a finite sequence; that rejection ends with probability one is not stated.
- Adds.AddsLN: `QSORT` is an insertion sort on the array prefix.
- How libc reads a number is a parameter (`Fields.Reader`), of which only is used that it reads back every printed `unsigned long` (`Fields.ReaderExists`); `parse` and `put` of other files are parameters of a database.
- Memory allocation always succeeds, and freed memory is not tracked.
- Name lookups (`getpwnam`, NSS, the subid plug-in) are fixed maps and sets.
- The command line tools around these functions, audit, syslog, nscd and sssd processes, PAM and terminal handling.
