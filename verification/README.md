# Verified model of scsi-cli

scsi-cli lists and describes SCSI, NVMe and Fibre Channel devices by reading sysfs. Beneath its
printing there are three pieces of logic, and this project models them in Dafny and proves what
they are for:

- the intrusive circular doubly linked list of `utils.h`, with its iterators and `container_of`;
- the arithmetic of `calculate_size` and `round_up`;
- the way text becomes numbers: the reads through the one static line buffer, `strtol`/`strtoull`
  in base 0, the `host:bus:target:lun` scan, the ten-field statistics line and the attribute
  directories.

## How it is built

| file | content |
|---|---|
| `Rings.dfy` | `next`/`prev` fields as a value, the field writes of `__list_add` and `list_del` in their C order, rings |
| `Lists.dfy` | several lists over one memory; each operation refines its operation on sequences |
| `Runs.dfy` | runs of operations, moves between lists, undoing deletions |
| `Iteration.dfy` | what a loop body may do to the list that is being iterated over |
| `ListHeads.dfy` | `struct list_head` as objects updated in place; the node iterators as loops |
| `Entries.dfy` | `container_of` on 64-bit addresses; the entry iterators as loops |
| `Rounding.dfy`, `Sizes.dfy` | `round_up` for every width; `calculate_size` |
| `Numerals.dfy`, `CNumbers.dfy` | digits, and the number readers and printers of the C library |
| `HctlScan.dfy` | `get_hctl_info` |
| `Sysfs.dfy` | `open_sysfs_stats_file`, `remove_newline`, `load_sysfs_path` on character arrays |
| `Statistics.dfy`, `Attributes.dfy` | `get_disk_stats`, `get_disk_queue_data`, `get_fc_dev_stats` |
| `Arithmetic.dfy` | products and quotients |

The list is modelled twice, and the two are tied together. The methods of `ListHeads.dfy` write the
fields of objects; each one ensures that the snapshot of the nodes afterwards is what `Insert`,
`Delete` and so on make of the snapshot before. The theorems about runs, undoing and moves are
lemmas about these functions, for every memory and every run.

The library calls follow ISO/IEC 9899:2011: sections 7.21.6.1 and 7.21.6.5 (`printf`, `snprintf`),
7.21.6.2 (`scanf` conversions), 7.21.7.2 (`fgets`), 7.22.1.4 (`strtol`, `strtoull`) and 7.24.5.3
(`strcspn`). `long` has 64 bits and `int` 32. Where the standard leaves a `%d` that exceeds `int`
undefined, the model reads a clamped `long` and keeps its low 32 bits; no theorem about numbers in
range depends on that. Files, directory entries and the loop bodies of the list iterators are
parameters.

## Findings

- `list_add` and `list_add_tail` keep the lists exactly if the node is linked nowhere: neither on
  this list, nor on another, nor as a head. The one exception is a head added to its own empty list,
  which changes nothing (`Runs.AddKeepsListsIff`, `Runs.AddTailKeepsListsIff`).
- The plain `list_for_each` visits exactly its list and stops if its body keeps or deletes entries,
  moves an entry to the front of the same list when all before it were deleted, or moves the last
  entry to the back of the same list; any other move makes it go astray (`Iteration.PlainWalkIff`).
  With moves to other lists only, it does so exactly if no entry is moved
  (`Iteration.PlainWalkWithoutMoves`).
- The `_safe` form visits exactly its list and stops if and only if no entry but the last is moved to
  the back of the same list; every other move is safe (`Iteration.SafeWalkIff`).
- Deletions can be undone from the fields that the deleted nodes still hold, both in the reverse
  order and in the order of the deletions (`Runs.UndoDeletions`, `Runs.UndoInOrder`). Not every order
  will do: of the six orders for three consecutive nodes deleted from first to last, exactly one
  fails, namely first, last, middle (`Runs.ThreeUndoneIff`).
- For a power of two `y`, `round_up` is right for every `x` with room for a multiple and wraps to 0 for
  the last `y - 1` values, so that it is not monotone there (`Rounding.RoundUpIff`,
  `Rounding.RoundUpMonotoneIff`). For any `y`, it is right for every `x` with room exactly if `y` or
  `2^w - y` is a power of two (`Rounding.RoundUpNeedsPow2`).
- `calculate_size` shows the size 1024 as "1024 B", and no other size below a TiB with a number of
  1024 or more (`Sizes.ValueBounds`). The `double` in it is inexact after the first division exactly
  for the sizes from 2^63 on with an odd number of KiB, and exact from the second division on
  (`Sizes.RoundedOnTheWayIff`, `Sizes.LaterValuesExact`).
- Fibre Channel counters from 2^63 on are stored as 2^63 - 1, because `strtol` reads them
  (`Attributes.HexCounterArrives`).
- A negative attribute, such as -1 in `io_poll_delay`, is stored as its complement to 2^64
  (`Attributes.NegativeAttributeWraps`).
- `discard_granularity` is printed with the queue data, but `get_disk_queue_data` leaves it as it was
  (`Attributes.DiskQueue.GetDiskQueueData`).
- The two file readers disagree on empty files, on files of 64 bytes and more and on files with
  more than one line (`Sysfs.ReadersAgreeIff`).
- `get_hctl_info` accepts any directory name that starts with four integers joined by colons, with
  blanks before and signs on each, and anything behind (`HctlScan.FoundIff`). If it finds none, the
  record keeps what partial scans of the sub-directories stored (`HctlScan.LeftOverField`).

## Model

| member | source | states |
|---|---|---|
| Rings.InsertRing | utils.h:105-113 | `__list_add` of a new node between any two neighbours of a ring gives the ring with the node inserted at that place |
| Rings.DeleteRing | utils.h:137-141 | `list_del` of any node but the head gives the ring without that position |
| Rings.InsertFrame | utils.h:105-113 | a ring that contains none of the three nodes stays a ring and keeps every pointer |
| Rings.DeleteFrame | utils.h:137-141 | a ring that contains neither the node nor its neighbours stays a ring and keeps every pointer |
| Rings.RingUnique | utils.h:89-91 | the memory determines the ring: two rings from one head are the same sequence |
| Rings.RingIsMirrored | utils.h:89-113 | in a ring `e->next->prev == e == e->prev->next` for every node |
| Rings.MirroredGivesRing | utils.h:89-113 | conversely, that local condition on a finite set of nodes already gives a ring through every one of them |
| Lists.ApplyRefines | utils.h:98-141 | INIT_LIST_HEAD, `list_add`, `list_add_tail` and `list_del` on one of several lists do to the pointers what new-list, prepend, append and remove do to the sequences, and keep the rings disjoint |
| Lists.InsertRefines | utils.h:105-113 | `__list_add` of a free node at any place of one of several lists inserts it there, and all lists stay disjoint rings |
| Lists.AddRefines | utils.h:122-125 | `list_add` of a free node prepends it to its list and leaves all other lists as they were, also on the empty list |
| Lists.AddTailRefines | utils.h:127-131 | `list_add_tail` of a free node appends it to its list and leaves all other lists as they were, also on the empty list |
| Lists.DelRefines | utils.h:137-141 | `list_del` of a node takes it off the list it is on and leaves all other lists as they were |
| Lists.WithoutIsRemoveAt | utils.h:137-141 | on distinct nodes the removal is exactly that of one position |
| Runs.RunRefines | utils.h:98-141 | any enabled run of operations ends in exactly the lists that the run of sequence operations ends in |
| Runs.RunFromNothing | utils.h:98-141 | the same from a memory holding anything and no lists; all heads and members are then mirrored |
| Runs.ReachableIff | utils.h:98-141 | the enabled runs that start with no lists lead to exactly the families that share no node and hold none twice |
| Runs.WfIsMirrored | utils.h:89-141 | for a family of disjoint lists `e->next->prev == e == e->prev->next` holds at every head and member |
| Runs.WfUnique | utils.h:89-91 | one memory describes only one family of lists for given heads |
| Runs.OtherListsUntouched | utils.h:105-141 | an operation on one list leaves members, order and all pointers of every other list alone |
| Runs.MoveEffect | utils.h:122-141 | a move (`list_del`, then `list_add` or `list_add_tail`) of any member to any list is possible, takes the node off its list and puts it first or last on the destination, and leaves all else as it was |
| Runs.MoveConserves | utils.h:122-141 | a move conserves heads and members |
| Runs.MovesConserve | utils.h:122-141 | any run of moves keeps disjoint rings, heads and the set of members, so every node stays on exactly one list |
| Runs.LastMoveDecides | utils.h:122-141 | after any run of moves a node that was moved is on the list that its last move named, and on no other |
| Runs.UnmovedStays | utils.h:122-141 | after any run of moves a node that none of them names is on the list it was on |
| Runs.DeletionsLeaveOthers | utils.h:137-141 | after deleting any distinct members of any of the lists in any order, every list holds exactly its other nodes, in order |
| Runs.DeleteKeepsOwnFields | utils.h:137-141 | `list_del` leaves the deleted node's own two fields alone |
| Runs.RelinkUndoesDeleteIff | utils.h:105-141 | one `__list_add(e, e->prev, e->next)` undoes one `list_del(e)` exactly if both neighbours pointed at `e` |
| Runs.UndoDeletions | utils.h:105-141 | after deleting any distinct members of any of the lists in any order, relinking them in reverse order restores every pointer |
| Runs.TwoUndoneInEitherOrder | utils.h:105-141 | after deleting any two distinct members, relinking them in either order restores every pointer |
| Runs.UndoInOrder | utils.h:105-141 | relinking them in the same order in which they were deleted restores every pointer, too |
| Runs.ThreeUndoneIff | utils.h:105-141 | of the six orders of relinking three consecutive nodes of any ring, deleted first to last, all restore the whole memory but first, last, middle, which leaves the node before them pointing at the last |
| Runs.AddKeepsListsIff | utils.h:115-125 | `list_add` leaves a family of lists with the same heads, all old nodes and the new one exactly if the node was linked nowhere (or is the head of its own empty list) |
| Runs.AddTailKeepsListsIff | utils.h:127-131 | the same for `list_add_tail` |
| Runs.AddKeepsRingIff | utils.h:115-125 | for a single list: one ring with all old nodes and the new one exactly if the node was not on the ring (or is its head, alone) |
| Iteration.HandleNode | utils.h:161-166 | handling the current entry in any way (keep, delete, move to the front or back of another list or of the same one) leads from the outcome for `i` nodes to the outcome for `i + 1` |
| Iteration.OutcomeAtEnd | utils.h:164-166 | when all nodes are handled the kept ones remain in order, and every list, this one too, has the nodes sent to its front before it, last first, and those sent to its back behind it in order |
| Iteration.FinalOfDeleting | utils.h:161-166 | a loop that only deletes leaves exactly the other nodes in order, and every other list as it was |
| Iteration.OutcomeConserves | utils.h:164-166 | the loop loses exactly the dropped nodes and gains none |
| Iteration.PlainWalkIff | utils.h:161-162 | for any plan of keeping, deleting and moving entries to lists, the same one included, plain iteration visits exactly the list, in order, and then stops if and only if every entry is kept, deleted, moved to the front of the same list with all earlier ones deleted, or the last one and moved to the back of the same list |
| Iteration.PlainWalkWithoutMoves | utils.h:161-162 | if moves lead to other lists only, it does so if and only if no entry is moved |
| Iteration.SafeWalkIff | utils.h:164-166 | for any such plan the safe loop visits exactly the list, in order, and then stops if and only if no entry but the last is moved to the back of the same list |
| ListHeads.InitListHead | utils.h:98-100 | both fields point to the object, and the snapshot is changed by Init |
| ListHeads.ListAddBetween | utils.h:105-113 | the four fields afterwards, also when two of the nodes are the same object; the snapshot is changed by Insert |
| ListHeads.ListAdd | utils.h:122-125 | the entry stands between the head and its old successor; the new snapshot is Add of the old one; only these three may change |
| ListHeads.ListAddTail | utils.h:127-131 | the entry stands between the old last node and the head; the new snapshot is AddTail of the old one; only these three may change |
| ListHeads.ListDel | utils.h:137-141 | the neighbours point at each other; the new snapshot is Delete of the old one; only the two neighbours may change |
| ListHeads.ListEmptyIff | utils.h:143-146 | `list_empty` holds exactly if the list's sequence is empty |
| ListHeads.ForEachSafe | utils.h:164-166 | for every plan that sends no node but the last to the back of the same list: the loop ends, visits every original node once in order, and all lists end as the plan says |
| ListHeads.ForEachDeleting | utils.h:161-162 | the plain loop with a body that may delete the current entry ends, visits every original node once in order, and leaves exactly the others in order |
| ListHeads.DeleteAndRelink | utils.h:105-146 | on the objects: deleting any distinct members and relinking them in reverse order leaves every field of every node as it was; in between, a list is empty exactly if all its nodes were deleted |
| Entries.EntryMemberInverse | utils.h:148-156 | `list_entry` and taking the member's address undo each other, for every address and offset, wrap-around included |
| Entries.EntryDistance | utils.h:148-156 | the record starts `offset` bytes before its member, for every address and offset, modulo 2^64 |
| Entries.MembersOfOwners | utils.h:168-178 | the visited records are those whose members are the nodes, place by place |
| Entries.RecordDecides | utils.h:168-178 | the node of a record is treated as the record is |
| Entries.ForEachEntry | utils.h:168-171 | with a body that may delete the current record: visits exactly the records of the original nodes, in order, never the one around the head, and leaves exactly the other nodes |
| Entries.ForEachEntrySafe | utils.h:173-178 | for the same plans: visits exactly the records of the original nodes, in order, with the outcome that the node loop has |
| Rounding.RoundUpIff | utils.h:212-213 | for every width, every power of two `y` and every `x`: the result is the least multiple of `y` from `x` on exactly if `x <= 2^w - y`, and 0 otherwise |
| Rounding.RoundUpIdempotent | utils.h:212-213 | for every width, power of two and value, rounding twice is rounding once |
| Rounding.RoundUpMonotoneIff | utils.h:212-213 | for x <= x' the results are in order exactly if x is 0, both wrap, or neither does |
| Rounding.RoundUpNeedsPow2 | utils.h:212-213 | for every `y` of the type, all `x <= 2^w - y` are rounded to the least multiple exactly if `y` or `2^w - y` is a power of two |
| Rounding.RoundUpToZero | utils.h:212-213 | for `y == 0` every value of the type wraps to 0 |
| Rounding.OrIsLeastMultiple | utils.h:212-213 | for x > 0 and a power of two, (x - 1 or-ed with y - 1) + 1 before wrapping is the least multiple of y from x on |
| Sizes.CalculateSize | scsi_print.c:88-105 | for every size the loop ends with the exact whole number of the unit, and the text is that number, a blank and B, KiB, MiB, GiB or TiB by the size; it fits the text buffer |
| Sizes.ValueBounds | scsi_print.c:94-102 | the value v in unit i satisfies v * 1024^i <= size < (v + 1) * 1024^i and v < 2^24; below TiB it reaches 1024 exactly for the size 1024 |
| Sizes.UlpBounds | scsi_print.c:94-99 | the doubles around a value have 53 bits |
| Sizes.DoubleIsNearest | scsi_print.c:94-99 | the conversion to `double` gives the nearest of them, and of two that are equally near the even one |
| Sizes.RoundedOnTheWayIff | scsi_print.c:94-99 | the value after the first division is inexact as a double exactly for sizes from 2^63 on whose number of KiB is odd |
| Sizes.LaterValuesExact | scsi_print.c:97-99 | from the second division on every value is below 2^44 and exact as a double |
| Sizes.LargeMayBeRounded | scsi_print.c:94-99 | there are sizes that are rounded on the way |
| Sizes.DisplayMonotone | scsi_print.c:88-105 | (unit, value) is lexicographically monotone in the size |
| Sizes.TextTells | scsi_print.c:102 | the text determines unit and value, and so the size up to less than one unit |
| CNumbers.ReadDecimal | scsi_disk_utils.c:695-697 | a canonical decimal is read as itself in base 10 and in base 0: never as octal or hexadecimal |
| CNumbers.ReadInt | scsi_print.c:128-131 | any integer printed with `%d` is read back with its sign, and reading stops right behind it |
| CNumbers.DecimalRoundTrip | scsi_disk_utils.c:695-697 | `strtoull` of the decimal text of n is n, or the maximum if n exceeds 64 bits |
| CNumbers.NegativeRoundTrip | scsi_disk_utils.c:711-713 | `strtoull` of a negative number in decimal is its complement to 2^64, or the maximum if it exceeds 64 bits |
| CNumbers.LongRoundTrip | scsi_fcp_utils.c:514-521 | `strtol` of the decimal text of any integer is the integer, or the end of the 64-bit range next to it |
| CNumbers.HexRoundTrip | scsi_print.c:425-441 | `strtol` of the `%#llx` text of n is n below 2^63 and 2^63 - 1 from there on |
| CNumbers.ReadIffForm | scsi_disk_utils.c:695-697 | in base 10 and in base 0, a number is read with this sign, value and rest exactly if the text is white space, an optional sign, and digits: octal behind a 0, hexadecimal behind 0x or 0X and a digit, else decimal |
| CNumbers.ReadIffIntForm | scsi_sysfs_utils.c:206-208 | `%d` reads exactly the texts made of white space, an optional sign and digits, and stops exactly at what follows |
| Numerals.DigitsAre | scsi_disk_utils.c:695-697 | the digits of the three bases, and their values in either case |
| HctlScan.ScanHctlText | scsi_sysfs_utils.c:206-208 | scanning h:b:t:l stores exactly the four numbers, in order |
| HctlScan.BusIdScans | scsi_print.c:128-131 | the printed [h:b:t:l] scans from behind its bracket to the four numbers, and from the bracket on to nothing |
| HctlScan.ScanIntOfAnyText | scsi_sysfs_utils.c:206-208 | an integer of any size is stored modulo 2^32, after it was cut to the range of `long` |
| HctlScan.CountIsNumberStored | scsi_sysfs_utils.c:206-208 | the count is the number of stored values, or EOF exactly for a text of white space only |
| HctlScan.HctlRoundTrip | scsi_sysfs_utils.c:206-208 | for all four 32-bit numbers, scanning h:b:t:l counts 4 and stores them, whatever follows it and whatever the record held |
| HctlScan.ScanIffColonForm | scsi_sysfs_utils.c:206-208 | n values are stored exactly for texts of n integers joined by colons, with anything behind |
| HctlScan.ScsiDeviceInfo.Scan | scsi_sysfs_utils.c:206-208 | one scan overwrites the fields that were converted, in the order host, bus, target, lun, and no others |
| HctlScan.ScsiDeviceInfo.GetHctlInfo | scsi_sysfs_utils.c:179-221 | returns 0 exactly if some entry is complete, and then host, bus, target and lun are the numbers of the first such entry, with nothing left of earlier partial scans; otherwise -ENODEV and what the partial scans left |
| HctlScan.LeftOverField | scsi_sysfs_utils.c:200-211 | after a search in vain each field holds the number that the last sub-directory reaching it left there, or what it held before |
| HctlScan.FoundIff | scsi_sysfs_utils.c:200-211 | the search succeeds exactly if some sub-directory's name starts with four integers joined by colons |
| HctlScan.NamedEntryIsFound | scsi_sysfs_utils.c:200-211 | a sub-directory named h:b:t:l is found, with its four numbers, if no entry before it is complete |
| HctlScan.DotsAreNotComplete | scsi_sysfs_utils.c:200-211 | "." and ".." never end the search |
| Sysfs.RemoveNewline | scsi_print.c:43-52 | cuts the string in place at its first newline and returns its length |
| Sysfs.StatsReader.OpenSysfsStatsFile | scsi_sysfs_utils.c:90-123 | null exactly for a file that cannot be read or is empty; otherwise the static buffer, holding the first line as far as 63 characters |
| Sysfs.LoadSysfsPath | scsi_sysfs_utils.c:42-64 | 0 exactly if `read` succeeds and delivers less than the buffer holds; the buffer then holds what was delivered less one final newline; -EINVAL otherwise |
| Sysfs.ReadersAgreeIff | scsi_sysfs_utils.c:42-123 | the two readers give the same text exactly for files of 1 to 63 bytes that hold a single line |
| Statistics.DiskStats.GetDiskStats | scsi_disk_utils.c:82-121 | 0 exactly if ten numbers were read from the first line; each field holds its own number of the line, and the fields not reached keep their values |
| Statistics.DiskStats.GetPrintedStats | scsi_disk_utils.c:82-121 | for a file with ten 64-bit numbers in at most 255 characters, however padded and followed: success, and every field holds the number that the kernel printed for it |
| Statistics.ScanUnsignedOfText | scsi_disk_utils.c:110-117 | a number with a sign or of any size is stored modulo 2^64, or as the maximum if it exceeds 64 bits |
| Statistics.ScanStatText | scsi_disk_utils.c:110-117 | scanning any sequence of padded 64-bit numbers stores exactly these numbers, one by one |
| Statistics.StatLineIff | scsi_disk_utils.c:84-117 | for any ten 64-bit numbers with any padding, followed by any further fields, each lands in its own slot exactly if the ten fields take at most 255 characters |
| Statistics.KernelLineScans | scsi_disk_utils.c:84-117 | fields at most 20 wide and one blank apart are never reached by the cut |
| Attributes.AttributeReader.Fetch | scsi_disk_utils.c:695-696 | whatever both buffers held, the local one then holds the text of this file, cut to its size |
| Attributes.TextArrivesIff | scsi_sysfs_utils.c:90-123 | a text without special characters, with or without a newline, passes the line read, the newline cut and the copy whole exactly if it fits the local buffer and has at most 63 characters |
| Attributes.AttributeReader.FetchNumber | scsi_disk_utils.c:695-697 | one read returns the number of its own file, whatever both buffers held |
| Attributes.DiskQueue.GetDiskQueueData | scsi_disk_utils.c:683-848 | for each of the 45 fields: the 38 that are read hold the value of the file of their own name, and the others are as before, although all reads share two buffers |
| Attributes.FcDevice.GetFcDevStats | scsi_fcp_utils.c:499-652 | each of the 34 Fibre Channel counters holds the value of the file of its own name, and the device its name |
| Attributes.DiskQueue.GetPrintedQueueData | scsi_disk_utils.c:683-848 | for a directory whose files hold numbers of 64 bits, with or without a sign, in decimal with a newline, each of the 36 number fields holds the number of its own file, modulo 2^64 |
| Attributes.FcDevice.GetPrintedDevStats | scsi_fcp_utils.c:499-652 | for a directory whose files hold 64-bit counters in the form of `%#llx`, each of the 34 fields holds the counter of its own file, cut to 2^63 - 1 |
| Attributes.DecimalAttributeIsExact | scsi_disk_utils.c:695-697 | any 64-bit number in decimal with a newline passes the line read, the newline cut, the 32-byte copy and `strtoull` unchanged |
| Attributes.NegativeAttributeWraps | scsi_disk_utils.c:711-713 | a negative number with a newline passes the same buffers and is stored as its complement to 2^64 |
| Attributes.NegativeCounterWraps | scsi_fcp_utils.c:514-521 | a negative counter in decimal is stored as its complement to 2^64, and as 2^63 from -2^63 down |
| Attributes.HexCounterArrives | scsi_fcp_utils.c:514-521 | any 64-bit counter as `%#llx` prints it arrives unchanged exactly if it is below 2^63, else as 2^63 - 1 |

## Left out

- Command dispatch in `scsi_test.c`: a case split over nine names, which would only add easy members.
- Labels, headers and tables of `scsi_print.c`, and the memory management of the records: no invariant behind them.
- Directory, file, `stat` and device calls, and the writes that trigger a reset or a scan: they are outside the program; files and directory entries are parameters.
- `remove_space`, `get_adapter_details` and the iSCSI readers: not part of this model.
- Path construction: the methods get the file or directory that the path leads to; a null path is not modelled.
- Attributes.DiskQueue.GetDiskQueueData: a missing or empty file, and a `%` in a text that serves as a format, are excluded, since the source passes them to `snprintf` unchecked; the record is one value whose fields are updated one by one.
- Attributes.FcDevice.GetFcDevStats: the same exclusions; the fields of the statistics record that are never read are not part of the model.
- Statistics.DiskStats.GetDiskStats: the source returns 1 alike for end of input and for too few numbers; the model does not tell the two apart.
- Iteration.PlainWalkIff: counts loop rounds, because the loop need not end; so does Iteration.SafeWalkIff, while ListHeads.ForEachSafe is the loop itself.
- Entries.ForEachEntry: this loop and its `_safe` form work on addresses and a memory value, because Dafny objects have no addresses.
- `round_up` on types narrower than `int` and on signed types: promotion is not modelled.
- `list_first_entry`, `min`, `for_each_dir`: one expression each.
