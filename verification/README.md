# zsr: a verified model

zsr is a command line tool and a library that report the state of a Linux system: cpu shares,
device rates, processes, name servers and more. This project models the parts of it that
compute, and proves what they compute.

- **Lists.** Everything zsr holds is in intrusive circular doubly linked lists. `Rings.dfy`
  models each operation of `include/zsr/list.h` as a method on nodes with `next` and `prev`
  links and proves it against the operation on the sequence of entries. `RingLaws.dfy` proves what the
  operations mean together, `Iteration.dfy` the loops that free a list while walking it.
- **Joins.** `ProcStat.dfy` and `Io.dfy` follow the two loops that compare a list of samples
  with the previous one. `ProcSpec.dfy` and `ProcMeaning.dfy` say what the process join
  computes and when that is what it is documented to compute, `ProcLaws.dfy` what the shares add up
  to over a run; `IoLaws.dfy` does this for devices.
- **Collectors.** `Histories.dfy`, `ModCpu.dfy`, `ModIo.dfy`, `ModProc.dfy`, `ModDns.dfy`,
  `ModMem.dfy` and `Snapshots.dfy` model the collect_record functions on their rings, for any
  number of rounds and through the final free; `Dns.dfy` has the filter of get_dns, `Meminfo.dfy`
  the two readers of /proc/meminfo.
- **The tool.** `ToolSpec.dfy` says on values what the tool does. `RecordLists.dfy`, `Modules.dfy`,
  `Tool.dfy` and `Teardown.dfy` refine it on the heap, from registering the modules to freeing
  them. `SwitchLaws.dfy` proves which modules the options enable, `ToolLaws.dfy` what a run
  holds and prints, `LeakLaws.dfy` what it leaks.
- **Numbers.** `Cpu.dfy` (percentages from wrapping counters), `Numeral.dfy`, `Rounding.dfy` and
  `Uptime.dfy`; `Words.dfy` has 64-bit arithmetic and doubles, `Searching.dfy` first-match lookup.

## Reading the model

- A C struct that embeds a `list_head_t` is one `Node`: two links and a payload. container_of
  is then the identity. A list head is a node whose payload nobody reads, and a `list_list_t` is
  a node whose payload is the head of an inner ring. The record list head within a module_t is a
  node that is allocated and freed together with its module.
- The sequence of entries of a list is passed to each method as a ghost argument; `Ring` says
  that the links carry it. A method's `modifies` clause names links of that ring only, so every
  ring that has no node in common with it is untouched.
- `malloc` gives a node with arbitrary contents, `free` leaves arbitrary contents behind, and
  `Heap.live` is what is allocated.
- `uint64_t` is a number below 2^64 and wraps. `double` is a real number without rounding;
  dividing by zero gives infinity or not-a-number as in C, so that no interval is excluded.
- What the kernel shows in each round is an input: samples are arbitrary, and an assumption such
  as "no counter went down" stands in the contract of the lemma that needs it.

## Where the code and its documentation differ

The model follows the code in each case.

- `compute_proc_cpu_stat` finds the previous sample of a process at position `p`
  (libzsr/proc.c:242) but subtracts the one at position `c` (lines 246 and 249).
  `ProcMeaning.CorrectExactlyWhenFaithful` says on exactly which pid lists the documented share
  (include/zsr/zsr.h:185) comes out, `ProcMeaning.ExampleOfAnExit` is a case where it does not.
  Position `c` can also lie past the end of the previous arrays; what is read there is the input
  `beyond`, and `ProcStat.Join` says when this happens.
- The comment at libzsr/cpu.c:68 says that an overflow of the ticks is skipped. It is not:
  `Cpu.OverflowSkippedExactlyWhen`, `Cpu.ExampleOfAnOverflow`.
- `is_digit` accepts more than numbers: `Numeral.AcceptedAgainstDocumented`.
- The snapshot modules keep only the last answer in the list (zsr/module/mod_dns.c:20), but never
  free the others: `Tool.Run`, `LeakLaws.LeakedNodes`.
- Nor does the report always show the last round: where record_to_str finds nothing to render,
  print_mod_record prints the buffer of an earlier round again, and the one-record modules read
  into the record of the round before, so that a field their reader does not write is shown again:
  `ToolLaws.ReportIsCurrentExactlyWhen`, `ToolLaws.ExampleOfAStaleReport`,
  `ToolLaws.ExampleOfALostGateway`.

## Model

| member | source | states |
|---|---|---|
| `Words.GoesRound` | libzsr/cpu.c:35-43 | Sums and differences of counters are modulo 2^64; dividing by zero gives not-a-number or infinity |
| `Rings.RingIsCycle` | include/zsr/list.h:16-30 | A head whose links carry the sequence `s` and one closed cycle that starts at the head are the same thing; both link directions are covered |
| `Rings.QueriesDecide` | include/zsr/list.h:167-222 | On a well-formed ring list_empty and list_empty_careful hold exactly for the empty list, list_is_singular exactly for one entry, list_is_last exactly for the last entry |
| `Rings.InitListHead` | include/zsr/list.h:26-30 | Whatever the links were, the node becomes an empty list head |
| `Rings.ListAddBetween` | include/zsr/list.h:38-46 | A node that is in no ring ends up between two neighbours of any ring, which stays one well-formed cycle |
| `Rings.ListAdd` | include/zsr/list.h:56-59 | The list becomes the new entry followed by the old list |
| `Rings.ListAddTail` | include/zsr/list.h:70-73 | The list becomes the old list followed by the new entry |
| `Rings.ListDelBetween` | include/zsr/list.h:82-86 | The ring closes over the unlinked node, which keeps its stale links; a self-loop stays as it is |
| `Rings.ListDelEntry` | include/zsr/list.h:94-97 | The same, from the entry alone |
| `Rings.ListDel` | include/zsr/list.h:99-104 | The rest stays one ring and the deleted entry has NULL links |
| `Rings.ListDelInit` | include/zsr/list.h:133-137 | The rest stays one ring, also when the deleted entry is the head, and the entry becomes an empty head |
| `Rings.ListReplace` | include/zsr/list.h:113-120 | The new node takes exactly the old one's place in any ring, including the self-loop where all four writes alias, and the old node's stale links are stated |
| `Rings.ListReplaceInit` | include/zsr/list.h:122-127 | The same, and the old node becomes an empty head |
| `Rings.ListMove` | include/zsr/list.h:144-148 | The entry becomes the first of the target list; from the same ring (adjacent nodes included) it leaves its old place, from another ring that ring closes |
| `Rings.ListMoveTail` | include/zsr/list.h:155-160 | The same with the last place |
| `Rings.ListRotateLeft` | include/zsr/list.h:205-213 | The first entry goes to the end, an empty list stays empty |
| `Rings.ListCutAt` | include/zsr/list.h:224-234 | Two disjoint rings: the prefix through the entry under the new head, the rest under the old one |
| `Rings.ListCutPosition` | include/zsr/list.h:250-262 | The cut for every entry including the last, for the head itself, and the three cases in which nothing is touched |
| `Rings.ListSpliceBetween` | include/zsr/list.h:264-276 | All entries of one list are inserted, in order, at any place of another ring |
| `Rings.CycleSpliced` | include/zsr/list.h:264-276 | The links that a splice leaves make one cycle again |
| `Rings.ListSplice` | include/zsr/list.h:283-288 | Concatenation at the front; the spliced head is not written |
| `Rings.ListSpliceTail` | include/zsr/list.h:295-300 | Concatenation at the back |
| `Rings.ListSpliceInit` | include/zsr/list.h:309-316 | Concatenation at the front, and the other list is empty |
| `Rings.ListSpliceTailInit` | include/zsr/list.h:326-333 | Concatenation at the back, and the other list is empty |
| `RingLaws.RingUnique` | include/zsr/list.h:398-399 | The links determine the list: no head carries two different sequences |
| `RingLaws.RingsApart` | include/zsr/list.h:16-18 | Lists under different heads, neither an entry of the other, share no entry |
| `RingLaws.MoveWithinConserves` | include/zsr/list.h:144-160 | A move within a list, to either end, keeps the multiset of its nodes |
| `RingLaws.MoveAcrossConserves` | include/zsr/list.h:144-160 | A move between rings keeps the multiset of the nodes of both together |
| `RingLaws.RotatedIsCyclicShift` | include/zsr/list.h:205-213 | `n` rotations are the cyclic shift by `n` |
| `RingLaws.FullTurn` | include/zsr/list.h:205-213 | As many rotations as entries are the identity |
| `RingLaws.RotateTimes` | include/zsr/list.h:205-213 | The same on the ring itself, call by call |
| `RingLaws.CutThenSplice` | include/zsr/list.h:224-288 | list_splice undoes list_cut_position for every cut point; only the empty list needs the target to be initialised |
| `Iteration.Visit` | include/zsr/list.h:436-439 | Forward iteration visits exactly the entries, once each, in order, and returns to the head |
| `Iteration.AppendAll` | libzsr/dns.c:26-36 | The reader loop leaves one fresh node per item, in order, and nothing else is allocated |
| `Iteration.FreeListHead` | include/zsr/list.h:578-581 | Freeing while iterating frees every entry once, in order, and nothing else, and never follows a freed node |
| `Iteration.ReadEntries` | zsr/module/mod_io.c:60-76 | The loop of record_to_str reads the payloads of the list, each once, in order |
| `Iteration.DeleteAndFree` | zsr/framework.c:45-48 | One round of the module teardown leaves a well-formed ring without its first entry |
| `Histories.HistoryIsChained` | zsr/module/mod_cpu.c:18-32 | After any number of collections the list has one record per collection, in order, each computed against its immediate predecessor |
| `Histories.HistoryOnlyGrows` | zsr/module/mod_cpu.c:18-32 | Later collections never change earlier records |
| `Cpu.ComputeCpuStat` | libzsr/cpu.c:45-76 | NULL records are left alone, otherwise the record gets the values of `Cpu.Computed` |
| `Cpu.ComputedOrSkipped` | libzsr/cpu.c:60-74 | The counters are never written; a record read just now is left alone exactly when the previous total is 0 or the stored totals agree; otherwise idle and util add up to 100 |
| `Cpu.StoredTotal` | libzsr/cpu.c:35-43 | Adding up wrapped counters gives the wrapped total of the true counters |
| `Cpu.ComputedFromTicks` | libzsr/cpu.c:60-75 | The shares in terms of true, never wrapping counters, for a true total change between 0 and 2^64 |
| `Cpu.PercentagesAreTrue` | libzsr/cpu.c:72-75 | idle (wa) is the true percentage exactly when the idle and steal (iowait) ticks changed by at least 0 and less than 2^64, whatever wrapped |
| `Cpu.SharesAreBounded` | include/zsr/zsr.h:28-30 | idle + util = 100, idle is not negative, and 0 <= wa <= util <= 100, when no true counter went down |
| `Cpu.StoredOverflowIsComputed` | libzsr/cpu.c:68-70 | The comment promises that an overflow is skipped; a stored total below the previous one never is, the record is written |
| `Cpu.OverflowSkippedExactlyWhen` | libzsr/cpu.c:68-70 | When the true total went down, the record is left alone exactly if the earlier total is 0 or the decrease is 0, both modulo 2^64 |
| `Cpu.ExampleOfAnOverflow` | libzsr/cpu.c:68-74 | Five user ticks fewer than before are reported as a machine at 100 percent |
| `Cpu.RecordIsComputed` | zsr/module/mod_cpu.c:19-29 | In the history of any run each record keeps its counters; the first has three zero shares, each later one starts from zeros and is computed against the one before |
| `Cpu.IdleTelescopes` | zsr/module/mod_cpu.c:25-31 | Over any run of true counters the tick-weighted idle percentages add up to 100 times the overall idle and steal change; intervals that the code skips may be among them where no idle time passed |
| `ModCpu.CollectRecord` | zsr/module/mod_cpu.c:18-32 | The ring grows by one record, computed against the last one |
| `ModCpu.CollectRounds` | zsr/module/mod_cpu.c:18-32 | After any number of rounds the ring carries the whole history |
| `ModCpu.CollectThenFree` | zsr/module/mod_cpu.c:55-60 | A run and the final free leave no cpu record allocated |
| `ProcSpec.WriteBackAt` | libzsr/proc.c:257-266 | After any number of rows only the first entry of a pid has been written, with the last row of that pid |
| `ProcSpec.LastRowIsLastMatch` | libzsr/proc.c:239-255 | The compacting counter `i` loses no match: the last row of a pid is its last match |
| `ProcSpec.UnusedRows` | libzsr/proc.c:219-221 | The rows that stay zero act as rows of pid 0 |
| `ProcSpec.RowsAreFullExactlyWhen` | libzsr/proc.c:239-255 | There is no unused row exactly when every current pid is in the previous list |
| `ProcSpec.JoinedAt` | libzsr/proc.c:239-266 | The whole join, entry by entry, for lists of any length with any pids and any choice of previous samples |
| `ProcMeaning.CorrectExactlyWhenFaithful` | libzsr/proc.c:239-266 | The code as written gives the documented share for all samples exactly on pid lists where each shared pid is first met at the same position in both and pid 0 meets no unused row |
| `ProcMeaning.JoinedEntry` | libzsr/proc.c:239-266 | Where matched pids are distinct and pid 0 meets no unused row, each matched entry gets the change from the sample chosen for it and the others are unchanged |
| `ProcMeaning.FaithfulIsCorrect` | include/zsr/zsr.h:184-185 | On faithful pid lists the result is the documented one, for all samples |
| `ProcMeaning.UnfaithfulIsWrong` | libzsr/proc.c:242-249 | On every other pair of pid lists there are samples with a wrong result |
| `ProcMeaning.MisalignedIsWrong` | libzsr/proc.c:244-249 | A shared pid at two different positions is enough for that |
| `ProcMeaning.StrayRowIsWrong` | libzsr/proc.c:257-263 | So is an entry of pid 0 beside a pid that is new: its share becomes 0/0 |
| `ProcMeaning.SamePidCorrectExactlyWhen` | libzsr/proc.c:242-249 | Reading the previous arrays at `p`, the position of the match, would give the documented share for all samples exactly on pid lists where no matched pid occurs twice and pid 0 meets no unused row |
| `ProcMeaning.SamePidIndexIsCorrect` | libzsr/proc.c:242-249 | One direction, for any samples |
| `ProcMeaning.RepeatedPidIsWrong` | libzsr/proc.c:257-263 | A matched pid that occurs twice gets a wrong share at its second entry, which is never written |
| `ProcMeaning.GrowthIsFaithful` | libzsr/proc.c:239-255 | While known processes keep their places and new ones come behind them, or only the last ones go, the code is right |
| `ProcMeaning.ExitIsUnfaithful` | libzsr/proc.c:239-255 | After the exit of any process but the last one it is not |
| `ProcMeaning.ExampleOfAnExit` | libzsr/proc.c:244-249 | An idle process reported at 500 percent |
| `ProcMeaning.FaithfulStaysInside` | libzsr/proc.c:246-249 | On faithful lists no read goes past the end of the previous arrays |
| `ProcStat.SysCpuTimeCountsGuestTwice` | libzsr/proc.c:138-142 | The system time of a process exceeds the total of a cpu record by guest and number, which user and nice already hold (libzsr/cpu.c:36-37) |
| `ProcStat.Stage` | libzsr/proc.c:223-237 | The arrays hold the three staged fields of each entry, in list order, within bounds |
| `ProcStat.Join` | libzsr/proc.c:239-255 | The rows array holds the rows of `ProcSpec.Rows` and zeros behind them; a previous array is read past its end exactly when a matched position has no previous sample |
| `ProcStat.WriteRowsBack` | libzsr/proc.c:257-266 | The write-back refines `ProcSpec.WriteBack` |
| `ProcStat.ComputeProcCpuStat` | libzsr/proc.c:190-279 | The six arrays, the join and the write-back together refine `ProcSpec.Computed`; links, pids and times are not written; the two lists may be one |
| `ModProc.CollectRecord` | zsr/module/mod_proc.c:27-42 | The outer ring grows by one inner ring, computed against the last one; no node is in two rings |
| `ModProc.CollectRounds` | zsr/module/mod_proc.c:27-42 | After any number of rounds the nested ring carries the whole history |
| `ModProc.FaithfulRoundIsDocumented` | zsr/module/mod_proc.c:36-39 | In any run a round whose pids are faithful to the round before reports the documented shares |
| `ProcLaws.RecordKeepsSamples` | libzsr/proc.c:137-158 | In any run each record keeps at its place the pid and the cpu time that were read there, and as system time the sum of the ten counters modulo 2^64 |
| `ProcLaws.FirstSharesAreZero` | zsr/module/mod_proc.c:35-39 | In the first list no share is computed |
| `ProcLaws.NewPidIsNotRated` | libzsr/proc.c:239-266 | Nor is it in any round for a pid that the list before does not have, but that pid 0 gets 0/0 at its first entry |
| `ProcLaws.RecordOfPid` | libzsr/proc.c:239-266 | In a faithful round of any run the share of a pid is 100 times the change of its cpu time over the change of the ten counters, both modulo 2^64 and against the sample of the same pid in the list before |
| `ProcLaws.SharesTelescope` | zsr/module/mod_proc.c:36-39 | Over any run of faithful rounds the shares of a pid that is in every list, weighted with the system time of their intervals, add up to 100 times its cpu time, also when the stored times wrap |
| `ModProc.CollectThenFree` | zsr/module/mod_proc.c:76-90 | A run and the final free leave no process entry, inner head or outer entry allocated |
| `Io.ComputeIoStat` | libzsr/io.c:87-193 | The nested loops refine the first-match join; links, devices and raw counters of both lists stay as they were; the two lists may be one |
| `Io.RateEntry` | libzsr/io.c:116-191 | The inner loop uses the first previous entry of the device and then breaks |
| `Io.Megabytes` | libzsr/io.c:112-150 | Whole megabytes, rounded down |
| `IoLaws.JoinIsFirstMatch` | libzsr/io.c:116-190 | Each current entry is rated against the first previous entry of its device, wherever it is, and an entry of a new device is unchanged |
| `IoLaws.TpsIsReadsPlusWrites` | libzsr/io.c:143-159 | tps = r/s + w/s exactly when the two changes together stay below 2^64 |
| `IoLaws.RatesAccountForCounters` | libzsr/io.c:125-188 | Each rate times the true time between the samples (of the machine with several processors, else of its processor) gives back the true change of the counter it is named for, in its unit of 1, 2048 sectors or 1000 ticks, exactly when that one counter went up by less than 2^64, wrapped or not |
| `IoLaws.RatesWithoutTime` | libzsr/io.c:125-188 | Where that clock stood still each rate is not a number or infinite, as its counter changed or not |
| `IoLaws.RequestSizeAccountsForSectors` | libzsr/io.c:167-170 | For any true number of I/Os below 2^64, avgrq_sz times that number is the true number of sectors moved exactly when this is below 2^64; without I/Os it is 0 |
| `IoLaws.WaitsAccountForTicks` | libzsr/io.c:175-185 | The same for r_await, w_await and await with the true numbers of reads, of writes and of both, and their waiting times in ticks |
| `IoLaws.AwaitIsWeightedMean` | libzsr/io.c:175-185 | await is the I/O-weighted mean of r_await and w_await exactly when no waiting time was counted for a kind that did not occur, and lies between them when both occurred |
| `IoLaws.RecordKeepsRaw` | zsr/module/mod_io.c:33-48 | In the history of any run each list keeps the devices and counters it was read with |
| `IoLaws.NewDeviceIsUnrated` | zsr/module/mod_io.c:41-45 | In the first list, and for a device that the list before does not have, all fifteen computed fields are zero |
| `IoLaws.RecordOfDevice` | zsr/module/mod_io.c:41-45 | In the history of any run a device is rated against its counters in the list just before |
| `IoLaws.TpsTelescopes` | libzsr/io.c:125-148 | Over any run the rates of a device in every list, each times the true time of its interval, account for exactly its true I/Os, also when the stored counters and clocks wrap |
| `IoLaws.ReadsAddUp` | libzsr/io.c:149-150 | Over `n` intervals the megabytes reported as read never exceed the true ones and fall short by less than `n`, also when the stored counter wraps |
| `IoLaws.WritesAddUp` | libzsr/io.c:149-150 | The same for the megabytes written |
| `IoLaws.UptimeIsFloor` | libzsr/io.c:212-214 | Without a wrap the jiffies are the hundredths of a second, scaled and rounded down once |
| `IoLaws.UptimeIsMonotone` | libzsr/io.c:212-214 | A later uptime never has fewer jiffies |
| `Snapshots.ReadSnapshot` | zsr/module/mod_io.c:34-39 | A fresh outer entry holds a fresh inner ring with one node per item |
| `Snapshots.AddSnapshot` | zsr/module/mod_io.c:47-47 | The nested ring grows by one inner ring, and no node is in two rings |
| `Snapshots.FreeSnapshot` | zsr/module/mod_io.c:93-97 | One outer round frees the inner entries in order, then their head, then the entry that holds them |
| `Snapshots.FreeRecordList` | zsr/module/mod_io.c:85-99 | The two nested loops free every inner node, inner head and outer entry once and nothing else, and never follow a freed node |
| `ModIo.CollectRecord` | zsr/module/mod_io.c:33-48 | The outer ring grows by one inner ring, rated against the last one |
| `ModIo.CollectRounds` | zsr/module/mod_io.c:33-48 | After any number of rounds the nested ring carries the whole history |
| `ModIo.CollectThenFree` | zsr/module/mod_io.c:85-99 | A run and the final free leave no device entry, inner head or outer entry allocated |
| `Dns.RemoteIsFilter` | libzsr/dns.c:9-14 | The answer holds an address exactly when it was found and is not one of the local host |
| `Dns.RemoteOfAppend` | libzsr/dns.c:26-36 | Addresses are taken one by one, so the answer keeps their order |
| `Dns.RemoteIsLeftInOrder` | libzsr/dns.c:26-36 | What is left are the addresses at an increasing sequence of positions, which are all those of addresses other than the four literal ones |
| `ModDns.CollectRecord` | zsr/module/mod_dns.c:16-22 | The list holds the new answer in fresh nodes; the old nodes remain a headless ring in the same order with the same contents |
| `ModDns.CollectRounds` | zsr/module/mod_dns.c:16-22 | After any number of queries the list holds the last answer only, and every allocated node is in exactly one ring |
| `ModDns.OrphanCount` | zsr/module/mod_dns.c:16-22 | The detached answers take up exactly one node for each of their items |
| `ModDns.CollectThenFree` | zsr/module/mod_dns.c:41-46 | The final free frees the last answer; the nodes of all earlier answers stay allocated, in the rings they were in |
| `ModMem.CollectRecord` | zsr/module/mod_gateway.c:16-29 | The list has one entry after every call; the first call allocates and zeroes it, every later one keeps it, and only the fields that the reader writes change |
| `ModMem.AfterIsLastWritten` | libzsr/gateway.c:14-27 | After any number of rounds each field of the record has the value last written to it, however long ago, and is zero if there is none |
| `ModMem.LastWrittenAt` | libzsr/gateway.c:14-27 | The value last written is that of the last round that wrote the field |
| `ModMem.WrittenAfreshExactlyWhen` | zsr/module/mod_gateway.c:20-28 | A round leaves nothing of the old record exactly when it writes every field that was not zero |
| `Meminfo.MemStat.ReadMemStat` | libzsr/mem.c:3-24 | The totals are the last ones in the leading lines, or the old ones; used_kb is total less free afterwards, and stays so if the file cannot be opened |
| `Meminfo.MemStat.ReadSwapStat` | libzsr/swap.c:3-27 | The same with the lines through the first one with the free swap |
| `Meminfo.LastTotalAt` | libzsr/mem.c:13-14 | The total is the number in the last line read that gives one |
| `Meminfo.LastFreeAt` | libzsr/mem.c:15-16 | The free memory is the number in the last line read that gives one |
| `Meminfo.LeadingAre` | libzsr/mem.c:12-18 | read_mem_stat reads exactly the lines before the first other one |
| `Meminfo.ThroughFreeAre` | libzsr/swap.c:12-22 | read_swap_stat reads exactly the lines through the first one with the free swap |
| `RecordLists.CollectRecord` | zsr/tool_zsr.c:26-29 | Whichever module it is, collect_record brings its record list from carrying `r` to carrying what the specification makes of `r`, allocates only what it adds to the module's memory, and touches no other node |
| `RecordLists.RecordToStr` | zsr/module/mod_io.c:50-83 | The buffer gets the last record, or the entries of the last list; with nothing to render it keeps what it had |
| `RecordLists.FreeRecordList` | zsr/tool_zsr.c:31-34 | What a record list holds is freed, whatever its shape; its head and what was detached from it are not |
| `Modules.Register` | zsr/framework.c:51-77 | The module comes last in the list with all its fields as registered, disabled, with an empty record list and an empty buffer; no node belongs to two modules |
| `Modules.LoadModules` | zsr/framework.c:20-35 | After any sequence of registrations the list holds just those modules in that order, over disjoint memory |
| `Tool.EnableModule` | zsr/tool_zsr.c:36-46 | Exactly the first module with the option is enabled; the tool exits exactly on an option of no module |
| `Tool.EnableAllModule` | zsr/tool_zsr.c:48-51 | Every module is enabled and nothing else changes |
| `Tool.HandleSwitches` | zsr/tool_zsr.c:128-169 | The options that enable modules take effect in order, and the tool exits exactly at one that no module has |
| `SwitchLaws.SwitchedExactlyWhen` | zsr/tool_zsr.c:128-169 | main goes on exactly when each option given for one module is that of a registered one; a module is then enabled exactly when all are, or when it is the first with an option given, and all its other fields are as registered |
| `Tool.CheckEnableModule` | zsr/tool_zsr.c:73-85 | The tool exits exactly when no module is enabled |
| `Tool.CollectRecord` | zsr/tool_zsr.c:26-29 | Every module collects once, enabled or not, on its own list; the modules stay over disjoint memory, and all they allocate is theirs |
| `Tool.PrintModRecord` | zsr/tool_zsr.c:106-114 | The buffers of the enabled modules are rendered and printed in list order, the others are not touched |
| `Tool.Loop` | zsr/tool_zsr.c:171-187 | A positive count gives exactly that many rounds, any other runs until stopped; each round brings the modules on the heap where the specification does, and prints its report |
| `Tool.Run` | zsr/tool_zsr.c:116-193 | All of main: how it ends is decided by the options and the count; if it comes to its end, the reports are those of the specification, the module list is empty, and the live objects are those from before and exactly the nodes of the answers detached before the last round |
| `Teardown.FreeRecordLists` | zsr/tool_zsr.c:31-34 | All record lists are emptied of their nodes and nothing else is freed |
| `Teardown.FreeModListHead` | zsr/framework.c:41-49 | Every module is unlinked and freed once with the head in it, no freed one is followed, and the ring ends empty |
| `Teardown.FreeEverything` | zsr/tool_zsr.c:189-190 | Of the memory of the modules exactly the detached answers stay allocated, still in the rings they were in |
| `Teardown.AllParts` | zsr/tool_zsr.c:189-190 | The memory of all modules is the disjoint union of the list heads, what is in the lists, and what was detached |
| `ToolLaws.RecordsAfterRun` | zsr/tool_zsr.c:174-187 | After any number of rounds cpu, io and proc hold their full history, a snapshot module holds its last answer and has detached all the earlier ones, and a one-record module holds one record, each field as last written |
| `ToolLaws.SnapshotHolds` | zsr/module/mod_dns.c:16-22 | After any run a snapshot module holds what it was given in the last round and has detached, in order, what it was given before; for dns without the addresses of the local host, in the order given |
| `ToolLaws.DnsHolds` | libzsr/dns.c:26-36 | After any run the dns module holds an address exactly when it was given in the last round and is none of the four literal ones |
| `ToolLaws.OneHolds` | zsr/module/mod_gateway.c:16-29 | After any run a one-record module holds one record, each field as the last round that wrote it did, and zero if none did |
| `ToolLaws.EnableIsOnlyShown` | zsr/tool_zsr.c:26-29 | Enabling a module changes nothing in what is collected |
| `ToolLaws.ReportIsOfEnabled` | zsr/tool_zsr.c:106-114 | A report shows the modules enabled at the start, and no other module influences it |
| `ToolLaws.EnabledOfAppend` | zsr/tool_zsr.c:106-114 | The enabled modules are taken one by one in list order |
| `ToolLaws.ReportEntry` | zsr/tool_zsr.c:106-114 | Report `k` has one text for each enabled module, in list order, its buffer after `k + 1` rounds |
| `ToolLaws.ReportIsCurrentExactlyWhen` | zsr/tool_zsr.c:106-114 | The report of an enabled module shows what this round has collected and nothing else, exactly when, for a one-record module, this round writes each field that an earlier one left in the record, and for any other, this round has something to show or no earlier one had |
| `ToolLaws.ShowsLastAnswered` | zsr/tool_zsr.c:106-114 | The buffer of an enabled module has the record of the last round that had something to show, however long ago, and all of it: the cpu record, every device, every process, the whole answer, the fields as last written by then |
| `ToolLaws.ShowsNothing` | zsr/module/mod_gateway.c:20-25 | Before there is anything to show a one-record module prints its zeroed record, and any other module an empty buffer |
| `ToolLaws.ExampleOfAStaleReport` | zsr/module/mod_dns.c:28-29 | After the only name server is gone the report still names it, while the record list is empty |
| `ToolLaws.ExampleOfALostGateway` | libzsr/gateway.c:20-23 | After the default route is gone record and report still show the old gateway |
| `ToolLaws.CpuReport` | zsr/tool_zsr.c:174-187 | Round `k` of a cpu-only run prints record `k`, computed against record `k - 1` |
| `LeakLaws.LeakedNodes` | zsr/tool_zsr.c:189-190 | After a run that came to its end the number of nodes still allocated is the number of items given to snapshot modules before the last round |
| `LeakLaws.NothingLeakedExactlyWhen` | zsr/tool_zsr.c:189-190 | Every node that was put in a list is freed exactly when no snapshot module was given anything before the last round |
| `LeakLaws.ExampleOfALeak` | zsr/module/mod_dns.c:16-22 | One name server in each of two rounds leaves one node allocated |
| `Numeral.IsDigit` | libzsr/common.c:14-39 | Accepts exactly the non-NULL strings of an optional minus sign and nothing or nonempty digit groups joined by single dots; every read is in the string or of its terminator |
| `Numeral.TenDigits` | libzsr/common.c:35-35 | The digits are the ten decimal ones |
| `Numeral.LengthTestIsIdle` | libzsr/common.c:24-36 | The scan with the test `i == len` and the scan without it agree from every state the loop can reach |
| `Numeral.ScanIsAccepted` | libzsr/common.c:18-39 | With or without that test the scan decides the same grammar |
| `Numeral.AcceptedAgainstDocumented` | include/zsr/common.h:13-14 | Every integer and decimal is accepted; an accepted string is one exactly when something follows the sign and it has at most one dot |
| `Numeral.AcceptedButNoNumerals` | libzsr/common.c:24-38 | The empty string, a lone minus sign and 1.2.3 are accepted |
| `Rounding.RoundsToNearest` | libzsr/common.c:41-59 | The result is the multiple of 10^-p nearest to d, within half a unit, ties away from zero, and the only such multiple |
| `Rounding.RoundingIsOdd` | libzsr/common.c:50-53 | Rounding -d gives minus the rounding of d |
| `Rounding.RoundingIsMonotone` | libzsr/common.c:50-58 | Rounding keeps the order, also across zero |
| `Rounding.RoundingIsIdempotent` | libzsr/common.c:41-59 | Rounding a rounded value changes nothing and stays in range |
| `Rounding.Examples` | include/zsr/common.h:21-23 | The documented examples, and two from test/common.c |
| `Uptime.SetUptime` | libzsr/uptime.c:3-27 | The stored fields are the well-formed reading of the seconds |
| `Uptime.Split` | libzsr/uptime.c:3-27 | The reading has month <= 12, day < 30, hour < 24, minute < 60, day <= 4 in month 12, and its weighted sum with the left-over seconds is the input |
| `Uptime.SplitOfTotal` | libzsr/uptime.c:3-27 | Every well-formed reading is the reading of its own total: nothing but the seconds is lost |
| `Uptime.OrderIsLexicographic` | libzsr/uptime.c:3-27 | Readings are in lexicographic order exactly when the seconds are in order |

## Left out

- Reading /proc, the file system table, the login records and the network interfaces, and parsing their text: input and output.
- Logging, getopt, the sleep between rounds, usage and list printing: input and output. Of the options, those that enable modules and the count are modelled.
- Floating-point rounding and the overflow of a double: doubles are exact reals.
- Rounding.RoundWithPrec: takes only values whose scaled rounding fits int64_t, because the conversion is undefined in C beyond that.
- Numeral.IsDigit: the counter `i` is unbounded, so strings of more than 2^31 characters are not modelled as in C.
- ProcStat.ComputeProcCpuStat: the counters of type int are unbounded and calloc always succeeds; a read past the end of an array, undefined in C, gives the value in `beyond`; the fields of proc_t that the join does not touch are not modelled.
- Io.ComputeIoStat: HZ and NUM_OF_CPU are a parameter, with HZ positive, instead of being read again on each call.
- The names, options and column titles of the fourteen modules: `Modules.LoadModules` takes any list of registrations; texts of any length fit the fields of module_t.
- The readers of the snapshot and one-record modules: what they find is the input `World`, an answer of strings to each snapshot module, and to each one-record module the fields that its reader gets to write, which may be none or only some. Of these readers `Meminfo.dfy` has two; they compute used_kb from the other fields in every state, so it is not a field of its own in `World`.
- The io_t that read_io_stat allocates for a line it cannot scan and then drops (libzsr/io.c:63-66), and the files it leaves open: a node that never is in a list is not in the model.
- The text that record_to_str renders, and the size of its buffer: the buffer is modelled by the records that were last rendered into it.
- compute_network_stat has an empty body; is_ipv4_addr and is_ipv6_addr wrap a library call.
- Walking a list backwards, and the iteration macros that start in the middle: they mirror the modelled ones.
