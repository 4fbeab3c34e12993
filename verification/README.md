# kmemlearn core logic, modelled in Dafny

kmemlearn detects kernel malware from memory access patterns. A patched
KVM logs which guest kernel pages a VM touches. A QEMU client collects
the log in fixed time slices ("epochs") and exports it as JSON. Python
scripts turn the traces into count matrices and window datasets for a
two-class network, and count its predictions in a confusion matrix.

This project models the integer logic of those four pieces as pure Dafny
functions, plus a few methods with loops, and proves their properties.

- **Dataset preparation** (scripts/prep_data.py).
  - `TraceVector` models `JsonToVec`. Each JSON level is an ordered list of (key, value) pairs, because Python 2 dicts iterate in an order of their own.
  - `Matrices` models `SliceMerge` and the column filter of `main`.
  - `DataSets` models the four dataset views.
  - `PrepWindowed` models the routing, windowing and balancing of `prep_windowed_datasets`.
  - Python exceptions are `Result.Raise(PyError)`.
  - `/` on ints is Python 2 floor division.
- **KVM access log** (kvm/arch/x86/kvm/memlearn.c). `KvmMemlearn` threads a `State` through the callbacks.
  - `g_info` is an `Option`.
  - The access-log hash table is a map from gfn to entry.
  - The hook table is a sequence in insertion order.
  - The wait queue is a sequence, newest first.
  - The packet comes from `AccessPacket`.
  - The KVM outcomes the code depends on are parameters. These are allocation success, `copy_to_user` success, the set of pages a hook can be installed on (`hookable`: a memory slot exists and the entry allocation succeeds), and the order `hash_for_each` visits keys in.
- **QEMU client** (qemu/memlearn.c). `QemuMemlearn` models `ml_epoch_new` and `export_json`.
  - The file `export_json` writes is modelled as the string it holds.
  - A reader for exactly that format proves the export loses nothing.
- **Confusion matrix** (scripts/confusionmatrix.py).
  - `ConfusionMatrix` models the 2x2 count, the per-pair increment, the tp/fp/fn/tn read-out, and the log printer.
  - The printer's output is a list of lines.

Two facts surface from the proofs.

- After one `mlearn_log` overflows the packet, every later call on a non-empty log fails and changes nothing. The fill count is only reset on success, and flushing does not touch it (`KvmMemlearn.LogStaysFull`).
- `mlearn_init` hooks the half-open page range `[start, end)`, but the kernel-page test includes `end` (`KvmMemlearn.EndPageNeverHooked`). That end page also reaches past the kernel text range, so accesses past its first byte are logged with an untranslated address (`KvmMemlearn.EndPagePastKernelText`).

## Model

| member | source | states |
|---|---|---|
| TraceVector.Lookup | scripts/prep_data.py:15 | a key lookup fails exactly when no pair has the key, and otherwise returns the value of a pair with that key |
| TraceVector.Bucket | scripts/prep_data.py:24 | `int(k[start:start+width], 16)` is below 16^width, and the only way it fails is ValueError |
| TraceVector.DefaultBucketBelowMagic | scripts/prep_data.py:14-24 | with the default layout every bucket is below the magic number 0x1000 |
| TraceVector.Accumulate | scripts/prep_data.py:23-26 | the `+=` loop succeeds iff every hit's slot is inside the vector, keeps the length, and slot s ends as its start value plus the total count of the hits mapped to s |
| TraceVector.JsonToVec | scripts/prep_data.py:14-27 | KeyError exactly when there is no SYS_READ epoch; otherwise the vector has magic * #epochs * #SYS_READ events slots, and slot s holds the summed counts of every key whose bucket + (e+ev)*magic is s |
| TraceVector.HitsIndexed | scripts/prep_data.py:18-23 | every visited hit carries an epoch index and an event index that exist in the trace |
| TraceVector.SlotsCoincide | scripts/prep_data.py:26 | two hits share a slot iff they have the same bucket and the same e+ev, so an epoch/event pair with equal sum collides |
| TraceVector.SlotBelowColumns | scripts/prep_data.py:15-26 | a bucket below magic with e < #epochs and ev < #SYS_READ events lands inside the vector |
| TraceVector.JsonToVecInBounds | scripts/prep_data.py:15-26 | when no epoch has more events than SYS_READ and every key parses, JsonToVec raises nothing |
| Matrices.BitOrBounds | scripts/prep_data.py:50 | `a \| b` is at least each operand, at most their sum, and non-zero iff one operand is |
| Matrices.BitOrIdempotent | scripts/prep_data.py:50 | `a \| a == a` |
| Matrices.StrideLenLast | scripts/prep_data.py:47 | the shortest strided view `X[k-1::k]` has n // k rows, which is the `min_col` of SliceMerge |
| Matrices.GroupOrBounds | scripts/prep_data.py:49-50 | an ORed group cell dominates every cell of its group and is non-zero iff one of them is |
| Matrices.SliceMerge | scripts/prep_data.py:46-51 | a non-positive block size raises ValueError; otherwise the result is n // k rows of the input width, row i being the OR of rows i*k .. i*k+k-1 |
| Matrices.MergedByOne | scripts/prep_data.py:46-51 | merging with block size 1 returns the matrix unchanged |
| Matrices.MergedCells | scripts/prep_data.py:49-50 | each merged cell dominates the cells of its group and is non-zero iff one of them is |
| Matrices.ColumnTotalPositive | scripts/prep_data.py:226-229 | a column's total over all matrices is positive iff some matrix has a positive entry in it |
| Matrices.KeptColumns | scripts/prep_data.py:229-233 | the kept column indices are exactly the masked columns, in increasing order |
| Matrices.NonZeroMask | scripts/prep_data.py:226-229 | the mask has one flag per column, set iff some matrix has a positive entry in that column, equivalently iff the column total is positive |
| Matrices.Restrict | scripts/prep_data.py:233 | selecting columns keeps the row count, has one column per selected index, and entry (r, j) is the original entry (r, cols[j]) |
| Matrices.FilterColumns | scripts/prep_data.py:226-233 | no matrix raises IndexError, and the filter succeeds iff there is a matrix and all widths agree; then a column is kept iff some entry in it is positive, and every matrix keeps its row count and has the kept count as width |
| Matrices.FilteredEntries | scripts/prep_data.py:233 | every filtered entry is the original entry of a kept column, and that column's total is positive |
| DataSets.Len | scripts/prep_data.py:60-94 | the four `__len__`s: `len()` of a dataset fails only with ZeroDivisionError or ValueError, and a combined dataset always has a length |
| DataSets.GetExample | scripts/prep_data.py:62-102 | the four `get_example`s: an example fails only with ZeroDivisionError, ValueError or IndexError, and a window dataset always yields an example with its own label, since slicing clamps |
| DataSets.Binarize | scripts/prep_data.py:72 | the shape is kept and each entry becomes 1 iff it is positive, else 0 |
| DataSets.Locate | scripts/prep_data.py:95-102 | index i resolves iff 0 <= i < sum of lengths, to a component whose prefix interval holds i and to offset i - prefix; other indices raise ValueError |
| DataSets.LocateUnique | scripts/prep_data.py:96-101 | an index inside component lj's interval resolves to lj at offset i - prefix(lj) |
| DataSets.Lens | scripts/prep_data.py:91 | the cached length list succeeds iff every component's `len` does, and then holds those lengths in order |
| DataSets.WindowedLen | scripts/prep_data.py:60-61 | `len` of a window dataset is defined iff the matrix has at least `wh` rows |
| DataSets.WindowedExamples | scripts/prep_data.py:60-65 | a window dataset has (n - wh) // ws examples; example i is the full wh-row block from row ws*i, which ends strictly inside the matrix, with the dataset's label |
| DataSets.BinaryExamples | scripts/prep_data.py:67-75 | the binary view keeps the length and the label and maps each entry to 1 iff it is positive |
| DataSets.MizumashiExamples | scripts/prep_data.py:77-86 | oversampling an n-example dataset by factor f gives n*f examples, example i being the original example i mod n |
| DataSets.CombinedExamples | scripts/prep_data.py:88-102 | the combined length is the sum of the lengths taken at construction; index i in range is example i - prefix of the component holding it, and any other index raises ValueError |
| DataSets.CombinedInRange | scripts/prep_data.py:95-101 | an index below the total length has a component whose prefix interval holds it, and the combined example is that component's example at the offset |
| DataSets.MakeCombined | scripts/prep_data.py:89-91 | constructing a combined dataset succeeds iff every component has a length; it keeps the components and caches one length per component, in order; a failing `len` propagates its ZeroDivisionError or ValueError |
| DataSets.MakeMizumashi | scripts/prep_data.py:79-82 | constructing an oversampled dataset succeeds iff the original has a length and otherwise propagates that error; with factor f >= 0 its length is len(org) * f, and a negative length makes `len()` raise ValueError |
| DataSets.MakeCombinedWellFormed | scripts/prep_data.py:89-91 | a combined dataset caches its components' true lengths |
| DataSets.MakeMizumashiWellFormed | scripts/prep_data.py:79-82 | an oversampled dataset caches its original's true length |
| DataSets.InRangeExamples | scripts/prep_data.py:60-102 | every index below the length of a well-formed dataset has an example |
| DataSets.ExampleLabel | scripts/prep_data.py:53-102 | an example's label is the label of a window dataset it was assembled from |
| PrepWindowed.Route | scripts/prep_data.py:136-151 | a dataset goes to test iff some test name ends with its name; otherwise to train iff the train list is empty or names it; label 0 is the negative class |
| Arith.WrapInt32Fits | scripts/prep_data.py:133 | the `int32` cast of a label keeps every value in [-2^31, 2^31) |
| Arith.WrapInt32Zero | scripts/prep_data.py:133 | the `int32` cast gives 0 exactly for the multiples of 2^32 |
| PrepWindowed.RouteCastLabel | scripts/prep_data.py:133-149 | a dataset goes to a negative list iff it is routed somewhere and its label is a multiple of 2^32, so a label such as 2^32 counts as negative |
| PrepWindowed.RoutedMembers | scripts/prep_data.py:132-151 | a pair is in a list iff it is (index, label cast to `int32`) of a dataset routed there, so each dataset lands in exactly one list or none |
| PrepWindowed.RoutedOrdered | scripts/prep_data.py:132 | each list holds valid dataset indices in increasing order |
| PrepWindowed.RoutedLabels | scripts/prep_data.py:139-149 | a pair in a negative list has label 0, a pair in a positive list a non-zero label |
| PrepWindowed.Partition | scripts/prep_data.py:128-151 | the loop casts each label to `int32` and fills the four lists exactly with the routed pairs, in catalogue order |
| PrepWindowed.Windows | scripts/prep_data.py:161-166 | one window dataset per listed pair, over that dataset's matrix and with its label; an index past the matrix list raises IndexError |
| PrepWindowed.MergeAll | scripts/prep_data.py:114-119 | every matrix is slice-merged by the same block size; a non-positive size raises ValueError unless there is no matrix |
| PrepWindowed.Balance | scripts/prep_data.py:169-176 | balancing asserts both classes are non-empty; the smaller class is oversampled by larger // smaller, after which it is at most the larger length and short of it by less than one original copy |
| PrepWindowed.CombinedOfClass | scripts/prep_data.py:167-168 | combining datasets of one class gives a dataset of that class |
| PrepWindowed.TrainClass | scripts/prep_data.py:165-168 | each train class is a well-formed combined dataset whose labels are all non-zero (positives) or all zero (negatives) |
| PrepWindowed.BalanceKeepsClasses | scripts/prep_data.py:169-176 | balancing keeps each class's labels and well-formedness |
| PrepWindowed.PairExample | scripts/prep_data.py:178 | in the binary view of [positives, negatives], each index in range has an example, positive iff it lies in the positives |
| PrepWindowed.TrainSet | scripts/prep_data.py:169-178 | the train set is the binary view of a two-part combined dataset; without balancing it succeeds iff both classes have a length and its parts are the two classes in order; it fails only with AssertionError, ZeroDivisionError or ValueError |
| PrepWindowed.TrainSetShape | scripts/prep_data.py:178 | the train set is the binary view of positives followed by negatives: every index below its length has an example, positive iff it falls in the first part |
| PrepWindowed.PrepWindowedDatasets | scripts/prep_data.py:123-180 | `prep_windowed_datasets` fails only with ValueError, IndexError, ZeroDivisionError or AssertionError; otherwise the train set is a binary view of two combined parts and the test set a binary view with one window dataset per test-positive and test-negative pair |
| PrepWindowed.TrainSetLayout | scripts/prep_data.py:123-180 | `prep_windowed_datasets` returns a well-formed test set and a train set built from one all-positive and one all-negative class |
| KvmMemlearn.InKernelText | kvm/arch/x86/kvm/memlearn.c:37-39 | `mlearn_in_kernel_text` holds exactly for gpa <= 0x100000000, the first 4 GiB with both ends included |
| KvmMemlearn.InKernelTextPage | kvm/arch/x86/kvm/memlearn.c:41-43 | `mlearn_in_kernel_text_page` holds for kernel_start_page <= gfn <= kernel_end_page, both ends included |
| KvmMemlearn.KernelTextBounds | kvm/arch/x86/kvm/memlearn.c:37-39 | the kernel text test holds iff gpa <= base + size, so both ends are included |
| KvmMemlearn.GuestPhysToVirt | kvm/arch/x86/kvm/memlearn.c:49-55 | kernel text addresses are moved up by `kernel_area_start` without wrapping; other addresses are unchanged |
| KvmMemlearn.AccessFind | kvm/arch/x86/kvm/memlearn.c:58-68 | the access entry is found iff the gfn is logged, and then it is that gfn's entry |
| KvmMemlearn.HookFind | kvm/arch/x86/kvm/memlearn.c:70-80 | no hook is found iff none has the gfn; otherwise the one found is the most recently added hook for it, since the list is searched from its head where hooks are added |
| KvmMemlearn.IsAccessed | kvm/arch/x86/kvm/memlearn.c:82-88 | a page counts as accessed in a mode iff it is logged and its bits share at least one bit with the mode |
| KvmMemlearn.PageTrack | kvm/arch/x86/kvm/memlearn.c:95-127 | outside the kernel pages, or for a page already accessed in the mode, nothing changes; otherwise the access is recorded under gpa >> 12 with the translated address |
| KvmMemlearn.Record | kvm/arch/x86/kvm/memlearn.c:116-125 | recording adds the gfn and touches no other entry; a new entry holds gva, gpa and mode, and an old one keeps its gva and gpa and its bits become old bits \| mode |
| KvmMemlearn.RecordBits | kvm/arch/x86/kvm/memlearn.c:116-125 | after recording, the page's bits include the mode and, for a page already logged, all of its earlier bits |
| KvmMemlearn.PageTrackFrame | kvm/arch/x86/kvm/memlearn.c:95-127 | the callback changes no hook, queue entry, page bound, packet or log entry of another page |
| KvmMemlearn.PageTrackGrows | kvm/arch/x86/kvm/memlearn.c:116-125 | every earlier entry stays, with its first gva and gpa and at least its bits |
| KvmMemlearn.PageTrackLogs | kvm/arch/x86/kvm/memlearn.c:99-125 | after an access to a kernel page the page is logged; a first access stores the translated gva, the gpa and the mode |
| KvmMemlearn.PageTrackSetsMode | kvm/arch/x86/kvm/memlearn.c:99-125 | after a read, write or exec access to a kernel page, the page's bits include that kind |
| KvmMemlearn.AccessedStays | kvm/arch/x86/kvm/memlearn.c:82-125 | a page accessed in some mode stays accessed in it after any later callback |
| KvmMemlearn.MultiBitModeNotAdded | kvm/arch/x86/kvm/memlearn.c:87-109 | for every state and mode, an entry that shares some but not all bits of the mode counts as accessed, is left unchanged and does not gain the missing bits; such a mode has several bits |
| KvmMemlearn.SetHookPage | kvm/arch/x86/kvm/memlearn.c:184-209 | hooking succeeds with 0 iff the page can be hooked, appending the hook; otherwise -EINVAL and nothing changes |
| KvmMemlearn.SetHookRange | kvm/arch/x86/kvm/memlearn.c:211-218 | only the hook table grows; every new hook is for a hookable page in [gfn_s, gfn_e) with the given mode |
| KvmMemlearn.SetHookRangeCovers | kvm/arch/x86/kvm/memlearn.c:211-218 | every hookable page of [gfn_s, gfn_e) gets a hook |
| KvmMemlearn.SetHookRangeIncreasing | kvm/arch/x86/kvm/memlearn.c:213 | the new hooks are in strictly increasing page order, so no page is hooked twice |
| KvmMemlearn.UpdateHookAll | kvm/arch/x86/kvm/memlearn.c:227-237 | an all-mode request is queued at the head iff the module is initialised, the page is a kernel page and allocation succeeds; the result is 0 only on allocation failure |
| KvmMemlearn.Init | kvm/arch/x86/kvm/memlearn.c:221-267 | allocation failure gives -ENOMEM and a NULL `g_info`; otherwise the page bounds are base >> 12 and (base + size) >> 12, the log and queue are empty, and exactly the hookable pages of [start, end) are hooked in all modes |
| KvmMemlearn.EndPageNeverHooked | kvm/arch/x86/kvm/memlearn.c:252-253 | the end page 0x100000 counts as a kernel page but `mlearn_init` never hooks it |
| KvmMemlearn.EndPagePastKernelText | kvm/arch/x86/kvm/memlearn.c:37-55 | every gpa in the end page set up by init lies in a kernel page, but only 0x100000000 is kernel text; every other gpa of that page is not translated |
| KvmMemlearn.AddPacketLog | kvm/arch/x86/kvm/memlearn.c:239-244 | a full packet gives 0 and is unchanged; otherwise gva is appended, 1 is returned, and size <= 2048 stays true |
| KvmMemlearn.FillPacket | kvm/arch/x86/kvm/memlearn.c:307-311 | the add loop succeeds iff all addresses fit; on overflow the packet is full and holds the prefix that fitted |
| KvmMemlearn.Log | kvm/arch/x86/kvm/memlearn.c:303-316 | 0 iff all logged gvas fit and the copy succeeds, and then user space receives the old contents plus the gvas in visiting order and the count resets; otherwise 1, and the count is not reset |
| KvmMemlearn.LogStaysFull | kvm/arch/x86/kvm/memlearn.c:303-316 | once the packet is full, every log of a non-empty access log returns 1 and changes nothing |
| KvmMemlearn.Rehook | kvm/arch/x86/kvm/memlearn.c:281-293 | hooking a request list appends exactly the hookable requests, in order |
| KvmMemlearn.HookableMembers | kvm/arch/x86/kvm/memlearn.c:184-209 | a request is installed iff it was requested and its page can be hooked |
| KvmMemlearn.Flush | kvm/arch/x86/kvm/memlearn.c:270-300 | flush returns 0 and empties log, hooks and queue; it installs the hookable ones of the logged pages in all modes and then of the queued requests |
| KvmMemlearn.LoggedHooksMembers | kvm/arch/x86/kvm/memlearn.c:281-285 | the re-hook requests built from the visiting order are exactly the logged pages in all modes |
| KvmMemlearn.FlushRehooks | kvm/arch/x86/kvm/memlearn.c:270-300 | a hook is installed iff its page is hookable and it is a logged page in all modes or a queued request |
| KvmMemlearn.FlushForgets | kvm/arch/x86/kvm/memlearn.c:270-300 | after a flush no page counts as accessed in any mode |
| QemuMemlearn.EpochNew | qemu/memlearn.c:25-37 | allocation failure gives NULL; otherwise the epoch has the packet's size and its first size addresses |
| QemuMemlearn.EpochOfLog | qemu/memlearn.c:43-52 | a successful log followed by `ml_epoch_new` captures the earlier packet contents and then every logged gva in visiting order |
| QemuMemlearn.Key | qemu/memlearn.c:68-70 | an address key is 18 characters: "0x" then 16 lower-case hex digits |
| QemuMemlearn.ExportJson | qemu/memlearn.c:55-81 | without a path nothing is written; otherwise the text starts with "{\n" and ends with "}\n" |
| QemuMemlearn.KeyReadsBack | qemu/memlearn.c:68-70 | the 16 hex digits of a key read back as the address |
| QemuMemlearn.ReadEntriesOfEntries | qemu/memlearn.c:65-71 | the entries of an epoch, each ending in "," but the last ending in "\n", read back as its addresses in order |
| QemuMemlearn.ReadBlockOfBlock | qemu/memlearn.c:64-76 | a block reads back as its decimal epoch number, its addresses, and whether it closes with "  }\n" (last) or "  },\n" |
| QemuMemlearn.ReadBlocksOfBlocks | qemu/memlearn.c:62-77 | the blocks read back as the epochs, numbered consecutively in list order |
| QemuMemlearn.ExportReadsBack | qemu/memlearn.c:55-81 | reading the exported text back gives exactly the epochs, so the export loses nothing |
| QemuMemlearn.KeyBucket | qemu/memlearn.c:68-70 | characters 11-13 of a key, the dataset builder's bucket, are (gva >> 16) & 0xfff |
| ConfusionMatrix.Finalize | scripts/confusionmatrix.py:51-52 | after `finalize` every cell is zero |
| ConfusionMatrix.Add | scripts/confusionmatrix.py:46 | a pair increments exactly `count[y][t]`, by one |
| ConfusionMatrix.Evaluate | scripts/confusionmatrix.py:29-46 | after the batch loop each cell has grown by the number of pairs equal to it |
| ConfusionMatrix.TallyByTruth | scripts/confusionmatrix.py:45-49 | the two cells of a truth's column count the pairs with that truth |
| ConfusionMatrix.TruthsCoverAll | scripts/confusionmatrix.py:45 | the pairs of truth 0 and of truth 1 are all the pairs |
| ConfusionMatrix.ReadOut | scripts/confusionmatrix.py:48-49 | tp = count[1][1], fp = count[1][0], fn = count[0][1], tn = count[0][0] |
| ConfusionMatrix.Call | scripts/confusionmatrix.py:15-49 | from a reset count each figure counts its kind of pair; tp+fn counts truth-1 pairs, fp+tn truth-0 pairs, and the four sum to the number of pairs |
| ConfusionMatrix.LogLines | scripts/confusionmatrix.py:63-70 | three lines per log entry, in order, numbered consecutively |
| ConfusionMatrix.Printout | scripts/confusionmatrix.py:59-70 | a three-line header, then three lines per entry, the block of entry i being that entry's lines numbered i+1 |
| ConfusionMatrix.PrintoutEntry | scripts/confusionmatrix.py:68-70 | entry i prints an "EPOCH i+1" line, a C+ row of tp and fn, and a C- row of fp and tn |
| ConfusionMatrix.PrintoutReadsBack | scripts/confusionmatrix.py:69-70 | the C+ row of entry i reads back as (tp, fn) and the C- row as (fp, tn) |
| Text.Hex | qemu/memlearn.c:68 | for x < 16^n, as `%016lx` of a u64, `%0<n>x` prints exactly n characters, each a digit or a lower-case letter a-f |
| Text.ParseHexOfHex | qemu/memlearn.c:68 | reading back n printed hex digits of x gives x mod 16^n |
| Text.HexSplit | qemu/memlearn.c:68 | the printed digits split into the high digits and the low m digits |
| Text.ParseDecOfDec | qemu/memlearn.c:64 | a printed decimal number reads back as itself |

## Left out

- File reading, `json.load`, pickle load and dump, `print`, matplotlib: I/O only. A trace is given as nested (key, value) lists and the matrices as values.
- The channel-dimension reshape in `load_datasets_pickle`: it changes only the array shape.
- Float32 counts in `JsonToVec`: counts are naturals, so float32 rounding above 2^24 is not modelled.
- `SetHookPage`: vzalloc failure is fixed per page, not per call. `hookable` says once per page whether hooking succeeds. The source can fail one allocation for a page and succeed another, e.g. when `mlearn_flush` hooks a page both from the log and from the queue. The iff of `FlushRehooks` and the "exactly the hookable pages" of `Init` hold under this simplification.
- `Route`: the label's `int32` cast is the silent two's-complement wrap of numpy in Python 2. A label outside the 64-bit range makes numpy raise OverflowError instead, and that error is not modelled.
- `Hex`: printf never truncates, so a value of 16^n or more prints more than n digits; the model keeps only the low n digits. Its only use, `Key`, prints a u64 with n = 16, and every u64 is below 16^16.
- SliceMerge's int32 cast: wrap-around of counts above 2^31 is not modelled.
- `int(s, 16)` and `int(v)`: only plain digit strings are modelled. Python also accepts surrounding whitespace, a sign or a `0x` prefix. A count is taken as a natural number.
- Numpy broadcasting: a matrix of width 1 in the column filter counts as a width mismatch, although numpy would broadcast it.
- `train_dataset_names` of `None`: it is treated like the empty list, since both are falsy.
- The chainer Evaluator machinery: iterator copying, the converter, `Variable` wrapping and the argmax over float scores. The (prediction, truth) pairs are given.
- The int32 count matrix: its wrap-around is not modelled.
- scripts/model.py and scripts/mkfigs.py: neural-network layers and plotting, outside this model.
- KVM API calls: page-track add, remove and unprotect, `gfn_to_memslot`, and notifier registration. Their only effect here is whether a page can be hooked, which is the `hookable` parameter.
- `mlearn_page_track_flush_slot`: it only makes KVM calls under a spinlock. Its hook lookup is modelled as `HookFind`.
- Spinlocks and concurrency: every transition is atomic.
- `printk` and the leaked, never-freed entries.
- `vzalloc` failure in the page-track callback (a NULL dereference in the source): allocation is assumed to succeed there.
- `copy_to_user` is a success flag.
- The hash-bucket order of `hash_for_each`: it is the parameter `order`, any enumeration of the logged pages.
- The kernel page-track mode values: READ = 1, WRITE = 2, EXEC = 4 and ALL = their union. The patched page_track header that defines them is not part of this model.
- The unchecked `gvas` allocation in `ml_epoch_new`: only the epoch allocation can fail in the model.
- QEMU `unit_dot`, the clock thread with `usleep`, the QMP commands and the ioctls: concurrency, timing and foreign calls. `EpochOfLog` states what one successful round delivers.
- `fopen` failure and the "saved to" message in `export_json`: only the written text is modelled.
- `print(self.count)` in `evaluate` and the JSON reading of the printer script: I/O. A log entry is taken as four natural numbers.
