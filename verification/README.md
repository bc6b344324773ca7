# A model of ip-router's route manager, and what is proved about it

`ip-router` keeps host routes for HTTP clients. The same facts live in three places: a table in
memory (key -> destination -> gateway, ttl, expiration time, last attempt to expire it), the file
`routes.db`, replaced as a whole by an atomic rename, and the kernel's /32 route table, which holds
at most one gateway per destination. Several keys may reference one destination, so a kernel route
is implicitly reference-counted. Every save and every kernel call may fail, and the process may die
between any two of them.

The project models the route manager as a class whose methods change those three copies in place,
with an outcome parameter for every save and kernel call, and proves each method to be one step of
a transition system. The results about crashes, restarts, failures and lifetimes are then proved
for every run of that system. Around the core it models the HTTP loops that call it many times, the
`routes.db` text, the netlink attribute buffer, two domain-name validators, the resolver directory
managed on top of one of them, and the search box of the page.

| file | contents |
|---|---|
| `Text.dfy` | byte order of strings, splitting, lines, decimal numbers |
| `RouteTable.dfy`, `RouteFile.dfy` | the table in memory; the file's text, written and read back |
| `RouteModel.dfy` | operations, their steps and their crash points, runs |
| `RouteInvariants.dfy` | the invariant of every state and every crash point |
| `RouteManager.dfy` | the manager itself, proved against the steps |
| `RouteRecovery.dfy` | loading, restarting, orphans, crashes, how long unrestored records are kept |
| `RouteLifetimes.dfy` | reference counts, failed operations, the sweep's rule, retries, ttls |
| `RouteAnswers.dfy` | the conditions of every reply, what each operation leaves, retries |
| `RouteService.dfy`, `RouteDeletion.dfy` | batch add; delete by key, by IP or by both |
| `Netlink.dfy` | appending attributes to a message and walking them |
| `DomainNames.dfy`, `ResolverDirectory.dfy` | the two validators; the marker-guarded directory |
| `FuzzyMatch.dfy` | substring and greedy subsequence search |

How to read the model:

- `World` is memory plus `Durable`, what survives a crash. `Op` is an operation with the outcomes of
  its saves and kernel calls. `Step` gives the new world and the reply. `CrashPoint` lists the durable
  states an operation passes through; the class records the states it really passes through in
  `trail`, and every method proves that these are crash points. A run is a list of events, each an
  operation that completes or one cut short at a crash point.
- `owned` are the kernel routes the running process installed and has not deleted, `legacy` those of
  its predecessors. `credits` is the latest add of a (key, IP) whose record was left on disk
  (`CreditIsLatest`). None of the three is read by the program; a re-add after a failed save gives
  back the former ownership.
- A failed save leaves the file as it was, a failed kernel call the kernel. A kernel delete succeeds
  only on the exact (IP, gateway) pair.
- `Legal` is what the callers guarantee: validated keys and addresses, 64-bit numbers, a positive
  clock that does not step back.

Five places where the code does less than one may expect are part of the results, each with the
condition under which it does:

- a rollback save that fails: `StepKeepsAgree`, `WriteHeals`;
- a rollback re-add that fails: `StepCount`, `LostUntilRestart`;
- an expired record whose delete fails during a load: `OrphanExactly`, `OrphanForgotten`;
- a failed restore, whose records README.md:1042-1043 says are kept for a later start, while the code
  keeps them exactly until the next operation that writes the file (`UnrestoredKeptUntilWrite`); after a
  load that could not read the file at all, that write discards every record
  (`UnreadableKeptUntilWrite`);
- an add that dies, or whose rollback save fails, after its record was saved: the record takes effect
  although the add never returned true. A permanent route then expires (`PermanentExpires`, and
  `UnansweredExpires` for every such add). A route never expires before its latest successful add has
  run out when no such add came after it (`CreditIsLatest`, `NeverEarly`).

The model follows the code.

## Model

| member | source | states |
|---|---|---|
| RouteInvariants.RunIsWriteAhead | ip-router/route_manager.cpp:1080-1101 | Over every run, whatever saves and kernel calls fail and wherever the process is cut short, at the end and at every moment of one more operation each kernel route the process owns has its (IP, gateway) in the file; and all keys agree on each destination's gateway. |
| RouteInvariants.StepKeepsInv | ip-router/route_manager.cpp:849-1240 | Every operation, whatever fails, keeps the invariant (valid savable table, no empty group, one gateway per destination, owned routes referenced and recorded, lost routes absent from the kernel), and every crash point of it is safe. |
| RouteInvariants.RestoreKeepsInv | ip-router/route_manager.cpp:792-815 | From any records, conflicting hand-edited ones included, and under any failures, the restored table references exactly the active destinations and has one gateway for each. |
| RouteInvariants.SweptReferences | ip-router/route_manager.cpp:869-898 | A sweep leaves a destination referenced exactly when it was referenced and its kernel route was not deleted. |
| RouteInvariants.PresentGateway | ip-router/route_manager.cpp:1129-1141 | A managed route that is in the kernel is the one every key's reference points at, which is why one pair identifies all references to drop. |
| RouteInvariants.InstalledInv | ip-router/route_manager.cpp:932-945 | The state before the first start, with any kernel table and any file, meets the invariant, so every run starts in it. |
| RouteModel.SweptTable | ip-router/route_manager.cpp:855-904 | The table after a sweep holds exactly the entries the per-destination rule keeps, and no empty group. |
| RouteManagement.RouteManager.SaveRoutes | ip-router/route_manager.cpp:159-199 | A good save makes the file read back as exactly the records of the table in memory; a failed one changes nothing. |
| RouteManagement.RouteManager.AddSystemRoute | ip-router/route_manager.cpp:680-690 | A kernel add creates or replaces the destination's gateway, or changes nothing. |
| RouteManagement.RouteManager.DeleteSystemRoute | ip-router/route_manager.cpp:668-678 | A kernel delete succeeds only on the exact pair and removes that one route. |
| RouteManagement.RouteManager.FindReference | ip-router/route_manager.cpp:1055-1067 | The search over all keys finds a reference exactly when there is one, with the gateway all references share. |
| RouteManagement.RouteManager.Classify | ip-router/route_manager.cpp:1033-1067 | The two searches of add tell a destination nobody references, one referenced through this gateway, and one referenced through another. |
| RouteManagement.RouteManager.AddReference | ip-router/route_manager.cpp:1069-1078 | A further reference, or a repeated one, changes memory and file only, and a failed save restores the whole table. |
| RouteManagement.RouteManager.AddFresh | ip-router/route_manager.cpp:1082-1102 | A fresh destination is saved first and installed second; a refused kernel route restores the table and takes the record back if that save works. |
| RouteManagement.RouteManager.Add | ip-router/route_manager.cpp:1017-1103 | The method is the add step on all three copies with the right reply, keeps the invariant, and passes only through its crash points. |
| RouteManagement.RouteManager.EraseReferences | ip-router/route_manager.cpp:1129-1141 | The erase-while-iterating loop drops exactly the references to the pair under every key and the groups it empties. |
| RouteManagement.RouteManager.DeleteAndErase | ip-router/route_manager.cpp:1126-1155 | Kernel delete, erase and save; when the save fails the whole table and, if the re-add works, the kernel route come back. |
| RouteManagement.RouteManager.Remove | ip-router/route_manager.cpp:1105-1156 | The method is the remove step, its two not-found replies included, keeps the invariant, and passes only through its crash points. |
| RouteManagement.RouteManager.RemoveSystem | ip-router/route_manager.cpp:1185-1240 | The same for remove_system, which searches the kernel's list for the exact pair first. |
| RouteManagement.RouteManager.ReferencedElsewhere | ip-router/route_manager.cpp:869-883 | In the middle of the sweep, the test for another key's reference fails exactly for the last reference in key order of a destination all of whose references are due. |
| RouteManagement.RouteManager.FindElsewhere | ip-router/route_manager.cpp:869-881 | The inner search finds a reference under another key exactly when there is one. |
| RouteManagement.RouteManager.SweepTable | ip-router/route_manager.cpp:855-904 | The two nested erasing loops equal the per-destination rule on memory and kernel, report a change exactly when an entry went, and ask the kernel exactly once for each destination all of whose references are due and for no other. |
| RouteManagement.RouteManager.Sweep | ip-router/route_manager.cpp:849-911 | One pass of the worker is the sweep step, keeps the invariant, passes only through its crash points, and asks the kernel once per destination that is wholly due. |
| RouteManagement.RouteManager.RestoreRoutes | ip-router/route_manager.cpp:780-819 | The restore loop leaves memory, kernel, active destinations and expired pairs as the restore function says, with exactly one successful kernel add per restored destination. |
| RouteManagement.RouteManager.DeleteExpired | ip-router/route_manager.cpp:821-837 | In any order, the loop deletes exactly the present kernel routes of expired pairs whose destination was not restored and whose delete does not fail. |
| RouteManagement.RouteManager.Start | ip-router/route_manager.cpp:932-957 | Starting is the restart step on all copies, keeps the invariant, passes only through its crash points, and owns exactly the destinations it added, each once. |
| RouteManagement.RouteManager.List | ip-router/route_manager.cpp:1158-1175 | The snapshot is the table's records, keys ascending and destinations ascending inside a key. |
| RouteManagement.RouteManager.constructor | ip-router/route_manager.cpp:60-80 | A manager begins with an empty table beside whatever file and kernel table exist. |
| RouteRecovery.RestoreExact | ip-router/route_manager.cpp:784-819 | The restore loop against an independent definition: active are exactly the destinations with a first restorable record, and an entry is the last unexpired record that follows the first restored gateway. |
| RouteRecovery.FirstUnique | ip-router/route_manager.cpp:801-811 | A destination has at most one record that brings it back. |
| RouteRecovery.LoadedTable | ip-router/route_manager.cpp:722-847 | After loading any readable file, memory is exactly the unexpired records that follow the first successfully restored gateway of their destination, the last winning for a repeated key and destination. |
| RouteRecovery.LoadedKernel | ip-router/route_manager.cpp:801-837 | After a load each owned route is the one its first restorable record asked for, no restored route is deleted as expired, and of the others exactly those of expired records go. |
| RouteRecovery.LoadAgrees | ip-router/route_manager.cpp:845-846 | A load that succeeds ends with file and memory in agreement. |
| RouteRecovery.LoadIsIdempotent | ip-router/route_manager.cpp:722-847 | If a load succeeds, a second load at the same time gives the same table. |
| RouteRecovery.StepKeepsAgree | ip-router/route_manager.cpp:1084-1100 | An operation keeps the unexpired records on disk equal to the unexpired entries in memory exactly when it is not an add whose rollback save fails. |
| RouteRecovery.WriteHeals | ip-router/route_manager.cpp:1093-1097 | However far apart they are, the next operation that writes the file brings file and memory together, unless its own rollback save fails. |
| RouteRecovery.RestartRebuilds | ip-router/route_manager.cpp:780-819 | From agreement, a restart whose kernel adds succeed rebuilds exactly the entries that are permanent or expire later, with no attempt remembered. |
| RouteRecovery.RecoveryRefinesMemory | ip-router/route_manager.cpp:905-911 | Load, any run of add, remove, remove_system and sweeps with any failures but a rollback save, then a restart at any later time: the same exact rebuilding. |
| RouteRecovery.KindRestartSettles | ip-router/route_manager.cpp:784-846 | After a restart in which no add and no delete of a present route fails, every entry is in the kernel with its gateway, referenced is the same as owned, and nothing an earlier process installed is left unowned. |
| RouteRecovery.CrashRecovery | ip-router/route_manager.cpp:1080-1101 | Cut any operation of any run, a load included, at any crash point, whatever saves, kernel calls and earlier loads failed; after one restart in which no add and no delete of a present route fails, every recovered entry is in the kernel, referenced is the same as owned, and no route the process owned, nor any other the file records, is orphaned. |
| RouteRecovery.NothingEverOrphaned | ip-router/route_manager.cpp:784-846 | When every load of the run was as kind, the same holds for every route any earlier process installed and nobody deleted. |
| RouteRecovery.NothingOrphaned | ip-router/route_manager.cpp:821-837 | Such a restart installs again or deletes each kernel route the file records. |
| RouteRecovery.CrashLeavesOneTable | ip-router/route_manager.cpp:1080-1101 | From agreement, a crash at any moment of add, remove, remove_system or a sweep leaves in the file the live records of memory before, of the table an accepted add attempts, or of memory after, never a mixture. |
| RouteRecovery.CrashRebuildsOneTable | ip-router/route_manager.cpp:780-819 | A restart whose kernel adds succeed then rebuilds exactly that one of the three tables. |
| RouteRecovery.OrphanExactly | ip-router/route_manager.cpp:821-837 | Which earlier route a load leaves behind in the kernel, exactly: no unexpired record of its destination could be added, and it has no expired record or its delete failed. |
| RouteRecovery.OrphanForgotten | ip-router/route_manager.cpp:831-846 | A load that succeeds drops every record of such a route. |
| RouteRecovery.UnrestoredKeptUntilWrite | ip-router/route_manager.cpp:722-847 | After any load, a record of the file that memory did not get is still in the file at the end of a run of the process exactly when the load did not succeed and no operation of the run wrote the file; the run may add its destination and its key, as long as no add enters the very same record. |
| RouteRecovery.UnreadableKeptUntilWrite | ip-router/route_manager.cpp:724-731 | A load that cannot read the file leaves memory empty, and every record is kept exactly until the first write. |
| RouteRecovery.LoadWrites | ip-router/route_manager.cpp:839-846 | A load of an existing file rewrites it, with memory, exactly when it succeeds. |
| RouteLifetimes.StepCount | ip-router/route_manager.cpp:1143-1153 | One operation keeps "owned in the kernel" equivalent to "referenced by some key" exactly when it is not a failing re-add of a destination still referenced. |
| RouteLifetimes.RunCount | ip-router/route_manager.cpp:869-898 | Over every run with crashes, owned destinations are referenced; with no failing re-add, referenced ones are owned. |
| RouteLifetimes.ReaddFailureLoses | ip-router/route_manager.cpp:1228-1237 | A failing re-add leaves its destination referenced and out of the kernel. |
| RouteLifetimes.StepKeepsLost | ip-router/route_manager.cpp:1068-1078 | Such a destination can be neither removed nor expired, and a further add does not bring its route back. |
| RouteLifetimes.LostUntilRestart | ip-router/route_manager.cpp:1143-1153 | Whatever the process does, the loss lasts until it restarts. |
| RouteLifetimes.RemoveClears | ip-router/route_manager.cpp:1123-1141 | A successful removal clears every reference to its destination under any key, no other destination, and its kernel route. |
| RouteLifetimes.ExternalSparedOverRuns | README.md:1070-1075 | Between restarts, expiration and deletion by key never take away or change a kernel route the process did not install; only an add or a system removal naming the destination can. |
| RouteLifetimes.UnknownSparedOverRuns | README.md:1070-1075 | Over every run with restarts, crashes and failures the same holds for a route at a destination the file has no record of, and the file gains none. |
| RouteLifetimes.AddInstalls | ip-router/route_manager.cpp:1082-1102 | An add changes the kernel exactly when it succeeds for a destination nobody references, and then that one entry. |
| RouteLifetimes.FailureIsInvisible | ip-router/route_manager.cpp:1024-1102 | A failed add, remove or remove_system leaves memory as it was, the kernel too unless a re-add failed (one route is lost), and the file unchanged or encoding that memory unless a rollback save failed (it holds the candidate). |
| RouteLifetimes.SweepRule | ip-router/route_manager.cpp:857-904 | Entries not due stay; if some reference is not due, all due ones go and the kernel is not asked; if all are due, success removes all and failure leaves only the last in key order with the attempt noted. |
| RouteLifetimes.RetrySpacing | ip-router/route_manager.cpp:860-868 | After a failed expiration delete no sweep tries that destination again under any key for 30 seconds, unless the surviving entry is refreshed or removed. |
| RouteLifetimes.SurvivorBlocks | ip-router/route_manager.cpp:860-881 | It is the survivor's own unexpired wait that keeps every other key's attempt off. |
| RouteAnswers.SweepAsks | ip-router/route_manager.cpp:860-883 | A sweep asks the kernel about a destination exactly when it is referenced and every reference has run out and was not tried in the last 30 seconds. |
| RouteAnswers.RetryResumes | ip-router/route_manager.cpp:860-868 | A failed expiration delete is retried: the first sweep from 30 seconds on that finds the destination referenced and every reference run out asks the kernel again, whatever the process has done in between. |
| RouteAnswers.SweepSaves | ip-router/route_manager.cpp:905-911 | A sweep rewrites the file exactly when it dropped an entry and its save works. |
| RouteAnswers.AddAnswers | ip-router/route_manager.cpp:1017-1103 | Every reply of an add: a sum past the largest time, a reference through another gateway, a failing save, a refused kernel route of a destination nobody references; otherwise it succeeds. |
| RouteAnswers.AddSucceeds | ip-router/route_manager.cpp:1017-1103 | Which adds return true. |
| RouteAnswers.AddLeavesEntry | ip-router/route_manager.cpp:1069-1083 | A successful add leaves the entry with its gateway, its ttl or zero, the sum or never, and no attempt; no other entry changes, and the file holds the new table. |
| RouteAnswers.RemoveAnswers | ip-router/route_manager.cpp:1105-1156 | Every reply of a remove, and that a successful one removes exactly the references to the pair, its one kernel route, and rewrites the file. |
| RouteAnswers.RemoveSystemAnswers | ip-router/route_manager.cpp:1185-1240 | The same for remove_system, which asks the kernel's list instead of the table. |
| RouteAnswers.LoadAnswers | ip-router/route_manager.cpp:722-847 | Every reply of a load: no file, an unreadable one, a record that the kernel refuses and no earlier one brought back, a failing save; otherwise it succeeds. |
| RouteAnswers.LoadTakes | ip-router/route_manager.cpp:784-819 | A load takes only records that are permanent or run out later, with no attempt remembered, and every one of them when the kernel refuses none and the file knows one gateway for its destination. |
| RouteAnswers.LoadDeletes | ip-router/route_manager.cpp:821-837 | Of the kernel routes it does not own afterwards, a load deletes exactly those with a record of that very route that has run out, unless the delete fails. |
| RouteLifetimes.EventCredits | ip-router/route_manager.cpp:1021-1031 | Over completed and cut operations, the credited add of an entry changes with an add that returned true, with one cut after its save, and with one whose rollback save failed, and with nothing else. |
| RouteLifetimes.CreditsFollowAdds | ip-router/route_manager.cpp:1021-1031 | Of completed operations, only an add that returned true or whose rollback save failed changes it. |
| RouteLifetimes.CreditIsLatest | ip-router/route_manager.cpp:1021-1031 | Over every run, crashes included, the credited add is the latest one whose record was left in the file, folded over the events; if that add returned true, it is the latest that did. |
| RouteLifetimes.StepBacked | ip-router/route_manager.cpp:1021-1031 | Every expiration time in memory and in the file, at every crash point, is that of the credited add, computed without overflow. |
| RouteLifetimes.NeverEarly | ip-router/route_manager.cpp:860-863 | Over every run from a first start, restarts and crashes included, a sweep removes an entry only if its latest add whose record was left in the file had a positive ttl that has run out by then, and the sum never passed the largest time; if that add returned true, it is the latest that did. |
| RouteLifetimes.UnansweredExpires | ip-router/route_manager.cpp:1082-1090 | The limit of that, for every add with a ttl that is cut after its save or whose rollback save fails: a restart before it runs out brings its entry back with its expiration time, and a later sweep removes the entry, whatever earlier adds promised. |
| RouteLifetimes.PermanentExpires | ip-router/route_manager.cpp:1040-1051 | The shortest such run: a route whose only successful add was permanent expires one second after a refresh that was cut. |
| RouteFile.FileRoundTrip | ip-router/route_manager.cpp:171-182 | Writing any list of valid records and reading the text back line by line, tab by tab, gives exactly that list: none rejected, none taken for the header. |
| RouteFile.TableRoundTrip | ip-router/route_manager.cpp:159-199 | For every savable table the file reads back as its records, and a record is among them exactly when it is an entry. |
| RouteFile.RecordRoundTrip | ip-router/route_manager.cpp:744-773 | One written line has no newline in it and reads back as its record. |
| RouteFile.ServiceKeysAreSavable | ip-router/route_service.cpp:46-62 | The non-empty keys the HTTP layer accepts are exactly those the file reader accepts. |
| RouteFile.Render | ip-router/route_manager.cpp:171-182 | The two nested output loops write the header and one line per record in table order. |
| RouteFile.SplitFields | ip-router/route_manager.cpp:744-754 | The scan for tabs yields the tab-separated fields. |
| RouteFile.ReadSaved | ip-router/route_manager.cpp:733-774 | The reading loop yields the accepted records, only the very first line counting as a header. |
| RouteFile.AcceptedExactly | ip-router/route_manager.cpp:744-772 | A line is accepted, and as which record, exactly when it is five tab-separated fields holding a valid record, in whatever way its two numbers are written. |
| RouteFile.FileExactly | ip-router/route_manager.cpp:733-774 | Reading an arbitrary file: a record is read exactly when some line holds it, in the order of the lines; bad lines are ignored, and the header needs no exception because it holds no record. |
| RouteFile.LineExactly | ip-router/route_manager.cpp:744-773 | One line yields the record it holds, once, or nothing. |
| RouteFile.ParseLinesAppend | ip-router/route_manager.cpp:736-774 | Lines are read one by one, none affecting another. |
| RouteFile.PrintedLines | ip-router/route_manager.cpp:171-182 | What is written, line by line: the header, then key, destination, gateway, ttl and expiration time between tabs. |
| RouteFile.KeyExactly | ip-router/route_manager.cpp:692-704 | Keys have 1 to 256 bytes, none below 0x20 and none 0x7f. |
| RouteFile.AddressExactly | ip-router/route_manager.cpp:976-985 | An address is the dotted text of four bytes without leading zeros, and nothing else is. |
| RouteTable.Put | ip-router/route_manager.cpp:1082-1083 | Setting one entry changes that entry only and makes no empty group. |
| RouteTable.Unreference | ip-router/route_manager.cpp:1129-1141 | The table without the references to one pair: every other entry as before, no empty group. |
| RouteTable.RecordsExact | ip-router/route_manager.cpp:171-182 | The listed records are exactly the entries of the table. |
| RouteTable.RecordsAscending | ip-router/route_manager.cpp:171-182 | They are listed in the order of keys and destinations, each once. |
| Text.NumberRoundTrip | ip-router/route_manager.cpp:706-712 | A printed non-negative 64-bit number parses back to itself. |
| Text.ParsedExactly | ip-router/route_manager.cpp:706-712 | A text is accepted with a value exactly when it is, from end to end, white space, at most one sign and digits of that value, and the value fits 64 bits. |
| Text.SplitJoin | ip-router/route_manager.cpp:744-754 | Fields without the separator, joined and split, come back. |
| Text.JoinSplit | ip-router/route_manager.cpp:744-754 | The fields of a text have no separator in them and joined again are the text. |
| Text.LessExactly | ip-router/route_manager.cpp:78-79 | Keys are ordered by the first byte in which they differ. |
| Text.LinesOfLast | ip-router/route_manager.cpp:736-736 | What follows the last newline is a line unless it is empty. |
| Text.ClassesExactly | ip-router/domain_manager.cpp:161-170 | Digits, letters, white space and lower-casing by their ASCII codes. |
| Text.PrintedExactly | ip-router/route_manager.cpp:178-181 | Numbers are printed in decimal without leading zeros. |
| Text.Sorted | ip-router/route_manager.cpp:855-857 | The iteration order of the map: every key once, ascending. |
| RouteService.ResolveGateway | ip-router/route_service.cpp:115-136 | Which gateway is in force: a configured one when forced or when the request has none, else the request's own if it is valid; otherwise none. |
| RouteService.TtlExactly | ip-router/route_service.cpp:64-81 | A ttl is accepted exactly when it is absent, giving zero, or such a numeral, giving its value or zero if that is negative. |
| RouteService.CollectDestinations | ip-router/route_service.cpp:233-245 | One bad address rejects the list; otherwise the distinct addresses are collected. |
| RouteService.DistinctExact | ip-router/route_service.cpp:233-245 | They are the same addresses, each once. |
| RouteService.DistinctOrder | ip-router/route_service.cpp:242-244 | They come in the order of their first occurrence. |
| RouteService.AddEffect | ip-router/route_manager.cpp:1069-1102 | One add in a batch: success sets the entry and leaves the file equal to memory, failure leaves memory alone, and neither drops a saved record of an entry. |
| RouteService.AddAll | ip-router/route_service.cpp:250-271 | One verdict per destination, and exactly which one, from the table before the batch and the outcomes; what is reported added is at the end in memory under the key and in the file although later failures roll back the whole table; the kernel, exactly, has gained or taken over the destinations reported added that nobody referenced before, with the gateway in force, and failed destinations and all others are unchanged in memory and kernel; if owned and referenced were the same before, they are after, and all that is reported added is in the kernel. |
| RouteService.InstallMore | ip-router/route_service.cpp:254-254 | One more call keeps the exact statement about the kernel. |
| RouteService.SameAnswer | ip-router/route_service.cpp:250-254 | Earlier calls of the batch do not change what the manager answers about a destination. |
| RouteService.BatchSucceeds | ip-router/route_manager.cpp:1017-1103 | Which destinations are reported added, from the table before the batch. |
| RouteService.RouteAdd | ip-router/route_service.cpp:196-293 | Which requests are refused with nothing done, and otherwise all of that, with status 200 exactly when all succeeded, 500 exactly when none did, 207 else. |
| RouteService.SuccessExtremes | ip-router/route_service.cpp:273-279 | The success count equals the number of verdicts, or zero, exactly when all, or none, succeeded. |
| RouteDeletion.RemoveEffect | ip-router/route_manager.cpp:1105-1156 | Removing an existing reference is never answered not-found; the whole state after it, by its reply and whether a re-add failed. |
| RouteDeletion.Matching | ip-router/route_service.cpp:322-331 | The snapshot's matches are exactly its records with that key, IP or both. |
| RouteDeletion.MatchingOrder | ip-router/route_service.cpp:322-331 | They keep the order of the snapshot. |
| RouteDeletion.DeleteStep | ip-router/route_service.cpp:335-345 | Handling one match keeps the exact state: exactly the entries of the deleted pairs are gone from memory, exactly the kernel routes of those pairs and of failed re-adds are gone, the file is as before or holds the table, everything else is untouched. |
| RouteDeletion.AnsweredMore | ip-router/route_service.cpp:335-361 | One more answer keeps: deleted pairs are exactly those of successful answers, each asked of the manager with success once. |
| RouteDeletion.NextAnswer | ip-router/route_service.cpp:337-341 | The answer about one match, from the state before the request: already deleted exactly when an earlier match of its pair succeeded, else the manager's reply, a route lost to an earlier failed re-add counting as absent. |
| RouteDeletion.AllSucceed | ip-router/route_service.cpp:378-384 | With every matching route in the kernel and every delete and save working, all matches succeed. |
| RouteDeletion.DeleteMatching | ip-router/route_service.cpp:319-363 | Every answer is the one the state before the request and the outcomes call for; every match reported deleted is gone at the end with all references to its pair under any key and its kernel route; the only other kernel routes gone are those of matches whose save and re-add both failed; each pair is successfully deleted once, not-found never occurs, and nothing else in memory, kernel or file changes. |
| RouteDeletion.DeletedFromFile | ip-router/route_manager.cpp:1142-1143 | No record of a deleted pair is in the file at the end, even when later saves failed. |
| RouteDeletion.DeletedCount | ip-router/route_manager.cpp:1143-1153 | If owned and referenced were the same before, they are after exactly when no route was lost to a failed re-add. |
| RouteDeletion.NoMatchLeft | ip-router/route_service.cpp:378-384 | If all matches succeeded, no match remains. |
| RouteDeletion.RouteDelete | ip-router/route_service.cpp:295-392 | Which requests are refused, when the answer is 404, and that both leave everything as it was; otherwise all of that, with the status fitting the success count; status 200 means no match remains. |
| Netlink.Align | ip-router/route_manager.cpp:211-224 | The next multiple of four, as the alignment macros compute it. |
| Netlink.WordRoundTrip | ip-router/route_manager.cpp:218-220 | A 16-bit field reads back modulo 65536. |
| Netlink.WalkRoundTrip | ip-router/route_manager.cpp:416-451 | Walking a buffer of appended attributes yields the same types and payloads in order. |
| Netlink.WalkExactly | ip-router/route_manager.cpp:416-419 | Over any bytes, where a walk goes on, what it sees, and where it ends. |
| Netlink.BlockBytes | ip-router/route_manager.cpp:216-221 | The bytes of an appended attribute: length and type, low byte first, then the payload. |
| Netlink.ReadsBackExactly | ip-router/route_manager.cpp:218-220 | A sequence of appended attributes reads back exactly when every encoded length and type fits 16 bits. |
| Netlink.TilesAppend | ip-router/route_manager.cpp:208-226 | One more block behind a buffer of attributes makes a buffer of one more attribute. |
| Netlink.Message.constructor | ip-router/route_manager.cpp:256-262 | A message starts aligned, with no attribute. |
| Netlink.Message.AddAttribute | ip-router/route_manager.cpp:208-226 | Refused exactly when the aligned attribute exceeds the capacity, and then nothing changes; otherwise one aligned block follows the old content, which stays. |
| Netlink.Message.WriteAttribute | ip-router/route_manager.cpp:216-221 | Header fields and payload are written at the position, and nothing before it changes. |
| Netlink.Message.AddAttributes | ip-router/route_manager.cpp:275-282 | A sequence of appends leaves a buffer holding exactly the accepted attributes, and the first refused one does not fit. |
| Netlink.VisitAttributes | ip-router/route_manager.cpp:416-451 | Over any received bytes the attribute loop ends, reads only inside them, and visits what the walk sees. |
| Netlink.ReadRoute | ip-router/route_manager.cpp:420-450 | The switch keeps, of each type, the last attribute of at least four bytes. |
| Netlink.FieldsExactly | ip-router/route_manager.cpp:420-450 | Destination, output interface, gateway and table come from the types 1, 4, 5 and 15. |
| Netlink.BuildRequest | ip-router/route_manager.cpp:256-282 | A request of 28 and 128 bytes takes both attributes, and walking it gives destination and gateway back. |
| Netlink.RequestRoundTrip | ip-router/route_manager.cpp:416-451 | Any buffer laid out as these two attributes yields exactly destination and gateway. |
| DomainNames.AcceptsExactly | ip-router/domain_manager.cpp:149-177 | The one-pass automaton accepts exactly the texts whose dot-separated labels are 1 to 63 letters, digits or inner hyphens. |
| DomainNames.DomainExactly | ip-router/domain_manager.cpp:132-180 | A domain name is exactly a text put together from labels of 1 to 63 ASCII letters, digits and inner hyphens, dots between them, at most 253 characters in all, and any dots behind; its normal form is the lower-cased text without those. |
| DomainNames.ScanExact | ip-router/domain_manager.cpp:149-172 | At every position the automaton is still on exactly when all completed labels are labels and the current one may become one, and it knows its length. |
| DomainNames.ValidDomain | ip-router/domain_manager.cpp:132-180 | Accepts exactly the domain names of 1 to 253 characters without trailing dots, normalizes them, and reports the error of the first place that fails. |
| DomainNames.LowerLabels | ip-router/domain_manager.cpp:149-177 | The scan that lower-cases in place accepts what the automaton accepts and leaves the whole name lower-cased. |
| DomainNames.NormalizationIdempotent | ip-router/domain_manager.cpp:132-180 | A normalized name is a name exactly when the text was, and normalizing it again changes nothing. |
| DomainNames.NormalizeDomain | dns-gate/dns_http_service.cpp:13-43 | The second validator accepts exactly the names left after trimming and yields their normal form. |
| DomainNames.TrimExactly | dns-gate/dns_http_service.cpp:16-16 | Trimming takes every space and every tab and nothing else. |
| DomainNames.VerdictsAgreeExactly | dns-gate/dns_http_service.cpp:13-43 | On a text without blanks both validators give the same verdict and result; on another they agree exactly when what is left after trimming is no name. |
| ResolverDirectory.ManagedRoundTrip | ip-router/domain_manager.cpp:68-87 | A file the program writes is recognized as managed with the creation time written. |
| ResolverDirectory.WrittenLines | ip-router/domain_manager.cpp:221-225 | The five lines of a written file. |
| ResolverDirectory.ManagedExactly | ip-router/domain_manager.cpp:68-87 | Exactly the regular files whose first line is the marker are the program's; their creation time is the number after the prefix on the second line, or zero. |
| ResolverDirectory.StreamExactly | ip-router/domain_manager.cpp:82-83 | That number: white space, a sign, digits, then anything; beyond 64 bits the nearest bound. |
| ResolverDirectory.AddAnswers | ip-router/domain_manager.cpp:182-241 | Which adds succeed, a domain already listed included. |
| ResolverDirectory.RemoveAnswers | ip-router/domain_manager.cpp:243-271 | Which removes succeed. |
| ResolverDirectory.StepTouches | ip-router/domain_manager.cpp:212-240 | A call touches its domain's file and its own temporary one only, and leaves the first as the result says. |
| ResolverDirectory.StepLeaves | ip-router/domain_manager.cpp:189-240 | What else a call leaves: the directory, made by an add that gets as far, and its temporary file exactly when a write or rename and the unlink both fail. |
| ResolverDirectory.StepListed | ip-router/domain_manager.cpp:182-271 | A successful add lists its domain, keeping an earlier creation time, a successful remove drops it, neither changes another line, and a failure changes none. |
| ResolverDirectory.ForeignUntouched | ip-router/domain_manager.cpp:196-202 | No run of adds and removes, whatever fails and whatever process id and settings each call runs under, changes or deletes a file without the marker, names beginning with a dot aside. |
| ResolverDirectory.DottedIsNoName | ip-router/domain_manager.cpp:212-214 | A temporary file's name can never be a domain name. |
| ResolverDirectory.CreationTimeFixed | ip-router/domain_manager.cpp:195-206 | While a listed domain is not removed its creation time stays, whatever else happens, under changing settings too. |
| ResolverDirectory.FirstAddStamps | ip-router/domain_manager.cpp:195-206 | That time is the time of its first add. |
| ResolverDirectory.SortAscending | ip-router/domain_manager.cpp:307-310 | Sorting distinct names gives them in ascending order. |
| ResolverDirectory.DomainManager.Add | ip-router/domain_manager.cpp:182-241 | The method is the add step on the directory, with every failure. |
| ResolverDirectory.DomainManager.WriteFile | ip-router/domain_manager.cpp:212-240 | Temporary file, content, rename; on failure the temporary file is what is left, if anything. |
| ResolverDirectory.DomainManager.Remove | ip-router/domain_manager.cpp:243-271 | The method is the remove step on the directory, with every failure. |
| ResolverDirectory.DomainManager.List | ip-router/domain_manager.cpp:273-312 | The listing is exactly the readable marked files with normalized names, each once, with its creation time, ascending, in whatever order the directory is read. |
| FuzzyMatch.GreedyExact | ip-router/html/index.html:1580-1586 | The greedy scan succeeds exactly when the token is a subsequence. |
| FuzzyMatch.TokenMatchesExactly | ip-router/html/index.html:1570-1587 | A token without a separator matches exactly as a subsequence of the value without separators; one with a separator exactly when its separator-free form is a contiguous part; the other substring tests add nothing. |
| FuzzyMatch.CompactExactly | ip-router/html/index.html:1575-1576 | Every dot, underscore and hyphen is dropped, and nothing else. |
| FuzzyMatch.IncludesExactly | ip-router/html/index.html:1574-1577 | A contiguous part has something before and something behind it, perhaps nothing. |
| FuzzyMatch.FuzzyTokenMatches | ip-router/html/index.html:1570-1587 | The function with its scanning loop decides that match on the lower-cased texts. |
| FuzzyMatch.TokensArePlain | ip-router/html/index.html:1589-1591 | Query tokens are non-empty and have no white space. |
| FuzzyMatch.WordsAtSpace | ip-router/html/index.html:1589-1591 | White space separates the tokens before it from those behind it. |
| FuzzyMatch.PlainIsOneWord | ip-router/html/index.html:1589-1591 | Nothing else separates: a text without white space is one token. |
| FuzzyMatch.TrimExactly | ip-router/html/index.html:1590-1590 | A query is trimmed of white space at its ends only. |
| FuzzyMatch.TokensExactly | ip-router/html/index.html:1589-1591 | The tokens are the words of the trimmed and lower-cased query. |
| FuzzyMatch.TextMatchesExactly | ip-router/html/index.html:1593-1595 | A text is found exactly when it contains every token. |
| FuzzyMatch.FieldsMatchExactly | ip-router/html/index.html:1597-1603 | A row is found exactly when every token is contained in some present, non-empty value, not necessarily the same one. |
| FuzzyMatch.FieldsMatchOfOne | ip-router/html/index.html:1593-1603 | With one distinct present value, searching fields is searching text. |

## Left out

- Kernel sockets and messages around the attributes, acknowledgements, the BSD route dump and sysctl: the kernel is a map with success and failure.
- Other writers of the kernel table, and a failing kernel call that nevertheless took effect: nobody else edits managed destinations while an operation runs.
- The file system below "the rename replaced the whole file or nothing changed", and the Windows remove-then-rename of ip-router/route_manager.cpp:189-193, which is not atomic.
- NUL bytes in `routes.db`, where C strings would cut fields short; a `char` stands for one byte.
- Textual variants of one IPv4 address: the library function behind `valid_ipv4` is not part of this model, addresses are canonical dotted quads compared as text.
- A clock that steps back or is not positive.
- Mutex, worker thread and condition variable: a sweep is a step that may come at any time, stopping and starting is a restart, and requests run without another operation in between.
- Global gateway settings, their file, and the check of them on load: the configured gateway is a parameter.
- Single-address requests (ip-router/route_service.cpp:138-194), which are one manager call, and the alias parameters of requests.
- The splitting of the `ips` parameter into tokens: the tokens are the input.
- HTTP dispatch, JSON, status texts, logging and error texts other than the kinds of failure.
- `list_system`, which returns the kernel's list unchanged, and the filter on its messages' headers (ip-router/route_manager.cpp:402-406 and 452-454).
- The order of targets inside one key during a sweep, of a directory's entries and of a set of expired pairs: left arbitrary, since no result depends on it.
- Widths other than those stated: times and ttls are 64-bit, message lengths 32-bit, attribute fields 16-bit little-endian; counters are unbounded.
- `std::sort` is stood in for by insertion; the library's `trim_space` is taken to delete spaces and tabs, and letters are ASCII, as in the C locale.
- The page's lower-casing is a parameter, `\s` is ASCII white space, and characters above one UTF-16 unit are not distinguished.
- dns-gate's proxy, packet parsing and database lookup, the page's other code, packaging and configuration.
