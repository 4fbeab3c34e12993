/** The access-log bookkeeping of kvm/arch/x86/kvm/memlearn.c as a state
    machine: the kernel-text range tests, the page-track callback that logs
    first accesses, the hook wait queue, the packet the log is copied out
    through, and flushing. Calls into KVM proper are not modelled; where
    their outcome matters it is a parameter. */
module KvmMemlearn {
  import opened Results
  import opened AccessPacket

  /** `PAGE_SHIFT` on x86: 4 KiB pages. */
  const PageSize: nat := 4096

  /** `kernel_area_start`: where the guest kernel maps physical memory. */
  const KernelAreaStart: u64 := 0xffff_8800_0000_0000

  /** `guest_phys_base` */
  const GuestPhysBase: u64 := 0

  /** `kernel_size`: 4 GiB. */
  const KernelSize: u64 := 0x1_0000_0000

  /** `-EINVAL` and `-ENOMEM` */
  const EINVAL: int := 22
  const ENOMEM: int := 12

  /** `enum kvm_page_track_mode` as bit flags. */
  type Flags = bv8
  const TrackRead: Flags := 1
  const TrackWrite: Flags := 2
  const TrackExec: Flags := 4
  const TrackAll: Flags := TrackRead | TrackWrite | TrackExec

  /** `struct mem_access_entry`; its `gfn` is the key it is logged under. */
  datatype AccessEntry = AccessEntry(gva: u64, gpa: u64, rwx: Flags)

  /** `struct mem_hook_entry` */
  datatype Hook = Hook(gfn: u64, rwx: Flags)

  /** `struct mlearn_info`: the access log (one entry per gfn), the hook
      table in insertion order (it may hold a gfn more than once) and the
      wait queue in `list_for_each` order (newest first). */
  datatype Info = Info(accessLog: map<u64, AccessEntry>, hooks: seq<Hook>, wqueue: seq<Hook>)

  /** The module's globals: `g_info` (None while NULL), `kernel_start_page`,
      `kernel_end_page` and `g_packet`. */
  datatype State = State(info: Option<Info>, startPage: u64, endPage: u64, packet: Packet)

  /** The statics before `mlearn_init` runs. */
  const Boot := State(None, 0, 0, EmptyPacket)

  const EmptyInfo := Info(map[], [], [])

  /** Unsigned 64-bit wrap-around. */
  function Wrap64(x: int): u64 {
    x % U64Limit
  }

  /** `gpa >> PAGE_SHIFT` */
  function GpaToGfn(gpa: u64): u64 {
    gpa / PageSize
  }

  // ---------------------------------------------------------------------
  // Range tests and address translation

  /** `mlearn_in_kernel_text` */
  predicate InKernelText(gpa: u64)
    ensures InKernelText(gpa) <==> gpa <= 0x1_0000_0000
  {
    GuestPhysBase <= gpa && gpa <= Wrap64(GuestPhysBase + KernelSize)
  }

  /** `mlearn_in_kernel_text_page` */
  predicate InKernelTextPage(s: State, gfn: u64) {
    s.startPage <= gfn && gfn <= s.endPage
  }

  /** The kernel text range is the first 4 GiB, both ends included. */
  lemma KernelTextBounds(gpa: u64)
    ensures InKernelText(gpa) <==> gpa <= GuestPhysBase + KernelSize
    ensures InKernelText(gpa) <==> gpa <= 0x1_0000_0000
  {
  }

  /** `guest_phys_to_virt`: kernel text addresses move up by
      `kernel_area_start` (the sum never wraps), others are unchanged. */
  function GuestPhysToVirt(gpa: u64): (gva: u64)
    ensures InKernelText(gpa) ==> gva == gpa + KernelAreaStart
    ensures !InKernelText(gpa) ==> gva == gpa
  {
    if InKernelText(gpa) then Wrap64(gpa + KernelAreaStart) else gpa
  }

  // ---------------------------------------------------------------------
  // Table lookups

  /** `mlearn_access_table_find` */
  function AccessFind(info: Info, gfn: u64): (r: Option<AccessEntry>)
    ensures r.Some? <==> gfn in info.accessLog
    ensures r.Some? ==> r.value == info.accessLog[gfn]
  {
    if gfn in info.accessLog then Some(info.accessLog[gfn]) else None
  }

  /** `hooks[j]` is the last hook for `gfn`. */
  predicate LatestFor(hooks: seq<Hook>, j: int, gfn: u64) {
    && 0 <= j < |hooks| && hooks[j].gfn == gfn
    && forall k | j < k < |hooks| :: hooks[k].gfn != gfn
  }

  /** `mlearn_hook_table_find`: a bucket lists its newest node first, so
      the hook found is the latest one added for the gfn. */
  function HookFind(hooks: seq<Hook>, gfn: u64): (r: Option<Hook>)
    ensures r.None? <==> forall j | 0 <= j < |hooks| :: hooks[j].gfn != gfn
    ensures r.Some? ==> exists j :: LatestFor(hooks, j, gfn) && hooks[j] == r.value
  {
    if hooks == [] then None
    else if hooks[|hooks| - 1].gfn == gfn then
      assert LatestFor(hooks, |hooks| - 1, gfn);
      Some(hooks[|hooks| - 1])
    else
      var r := HookFind(hooks[..|hooks| - 1], gfn);
      LatestForExtend(hooks, gfn);
      r
  }

  /** A hook that is the last for `gfn` stays the last when a hook for
      another page is added after it. */
  lemma LatestForExtend(hooks: seq<Hook>, gfn: u64)
    requires hooks != [] && hooks[|hooks| - 1].gfn != gfn
    ensures forall j | 0 <= j < |hooks| - 1 :: hooks[..|hooks| - 1][j] == hooks[j]
    ensures forall j | LatestFor(hooks[..|hooks| - 1], j, gfn) :: LatestFor(hooks, j, gfn)
  {
  }

  /** `mlearn_gfn_is_accessed`: the gfn is logged with one of `mode`'s bits. */
  predicate IsAccessed(info: Info, gfn: u64, mode: Flags)
    ensures IsAccessed(info, gfn, mode) <==> gfn in info.accessLog && (info.accessLog[gfn].rwx & mode) != 0
  {
    match AccessFind(info, gfn)
    case None => false
    case Some(e) => (e.rwx & mode) != 0
  }

  // ---------------------------------------------------------------------
  // The page-track callback

  /** A single access kind, as the read and write callbacks pass. */
  predicate SingleMode(mode: Flags) {
    mode == TrackRead || mode == TrackWrite || mode == TrackExec
  }

  /** Every entry of `log` is still in `log'` with its first gva and gpa and
      at least its access bits. */
  predicate LogGrows(log: map<u64, AccessEntry>, log': map<u64, AccessEntry>) {
    forall g | g in log ::
      && g in log'
      && log'[g].gva == log[g].gva && log'[g].gpa == log[g].gpa
      && (log'[g].rwx & log[g].rwx) == log[g].rwx
  }

  /** The log after recording an access in `mode` to page `gfn`: a new
      entry for a page not logged yet, otherwise the `mode` bits added to
      the entry already there (its gva and gpa are kept). */
  function Record(log: map<u64, AccessEntry>, gfn: u64, gva: u64, gpa: u64, mode: Flags): (log': map<u64, AccessEntry>)
    ensures log'.Keys == log.Keys + {gfn}
    ensures forall g | g in log && g != gfn :: log'[g] == log[g]
    ensures gfn !in log ==> log'[gfn] == AccessEntry(gva, gpa, mode)
    ensures gfn in log ==> log'[gfn].gva == log[gfn].gva && log'[gfn].gpa == log[gfn].gpa
    ensures gfn in log ==> log'[gfn].rwx == log[gfn].rwx | mode
  {
    if gfn in log then
      var prev := log[gfn];
      log[gfn := prev.(rwx := prev.rwx | mode)]
    else log[gfn := AccessEntry(gva, gpa, mode)]
  }
  /** After recording, the page's bits hold `mode` and, for a page already
      logged, every bit it had before. */
  lemma RecordBits(log: map<u64, AccessEntry>, gfn: u64, gva: u64, gpa: u64, mode: Flags)
    ensures var log' := Record(log, gfn, gva, gpa, mode);
            && (log'[gfn].rwx & mode) == mode
            && (gfn in log ==> (log'[gfn].rwx & log[gfn].rwx) == log[gfn].rwx)
  {
    if gfn in log {
      OrKeepsBoth(log[gfn].rwx, mode);
    } else {
      AndSelf(mode);
    }
  }


  /** `__mlearn_page_track`: outside the kernel pages, or for a page
      already accessed in `mode`, nothing happens; otherwise the access is
      recorded under the page's gfn with the kernel virtual address. */
  function PageTrack(s: State, gpa: u64, mode: Flags): (s': State)
    requires s.info.Some?
    ensures !InKernelTextPage(s, GpaToGfn(gpa)) || IsAccessed(s.info.value, GpaToGfn(gpa), mode) ==> s' == s
    ensures InKernelTextPage(s, GpaToGfn(gpa)) && !IsAccessed(s.info.value, GpaToGfn(gpa), mode) ==>
              s' == s.(info := Some(s.info.value.(accessLog :=
                Record(s.info.value.accessLog, GpaToGfn(gpa), GuestPhysToVirt(gpa), gpa, mode))))
  {
    var gfn := GpaToGfn(gpa);
    var info := s.info.value;
    if !InKernelTextPage(s, gfn) then s
    else
      var gva := GuestPhysToVirt(gpa);
      if IsAccessed(info, gfn, mode) then s
      else
        match AccessFind(info, gfn)
        case None =>
          s.(info := Some(info.(accessLog := info.accessLog[gfn := AccessEntry(gva, gpa, mode)])))
        case Some(prev) =>
          s.(info := Some(info.(accessLog := info.accessLog[gfn := prev.(rwx := prev.rwx | mode)])))
  }

  /** The callback only touches the log entry of the accessed page: every
      other entry, the hooks, the queue, the page range and the packet are
      kept. */
  lemma PageTrackFrame(s: State, gpa: u64, mode: Flags, s': State)
    requires s.info.Some? && s' == PageTrack(s, gpa, mode)
    ensures s'.info.Some? && s'.startPage == s.startPage && s'.endPage == s.endPage && s'.packet == s.packet
    ensures s'.info.value.hooks == s.info.value.hooks && s'.info.value.wqueue == s.info.value.wqueue
    ensures s'.info.value.accessLog.Keys <= s.info.value.accessLog.Keys + {GpaToGfn(gpa)}
    ensures forall g | g in s.info.value.accessLog && g != GpaToGfn(gpa) ::
              s'.info.value.accessLog[g] == s.info.value.accessLog[g]
  {
  }

  /** Earlier entries keep their first gva and gpa and their bits. */
  lemma PageTrackGrows(s: State, gpa: u64, mode: Flags, s': State)
    requires s.info.Some? && s' == PageTrack(s, gpa, mode)
    ensures s'.info.Some?
    ensures LogGrows(s.info.value.accessLog, s'.info.value.accessLog)
  {
    var gfn := GpaToGfn(gpa);
    var log := s.info.value.accessLog;
    if InKernelTextPage(s, gfn) && !IsAccessed(s.info.value, gfn, mode) {
      RecordGrows(log, gfn, GuestPhysToVirt(gpa), gpa, mode);
    } else {
      LogGrowsRefl(log);
    }
  }

  lemma LogGrowsRefl(log: map<u64, AccessEntry>)
    ensures LogGrows(log, log)
  {
    forall g | g in log
      ensures (log[g].rwx & log[g].rwx) == log[g].rwx
    {
      AndSelf(log[g].rwx);
    }
  }

  lemma RecordGrows(log: map<u64, AccessEntry>, gfn: u64, gva: u64, gpa: u64, mode: Flags)
    ensures LogGrows(log, Record(log, gfn, gva, gpa, mode))
  {
    var log' := Record(log, gfn, gva, gpa, mode);
    forall g | g in log && g != gfn
      ensures (log'[g].rwx & log[g].rwx) == log[g].rwx
    {
      AndSelf(log[g].rwx);
    }
  }

  /** A kernel page is logged afterwards, and a first access records its
      kernel virtual address. */
  lemma PageTrackLogs(s: State, gpa: u64, mode: Flags, s': State)
    requires s.info.Some? && s' == PageTrack(s, gpa, mode)
    requires InKernelTextPage(s, GpaToGfn(gpa))
    ensures s'.info.Some? && GpaToGfn(gpa) in s'.info.value.accessLog
    ensures GpaToGfn(gpa) !in s.info.value.accessLog ==>
              s'.info.value.accessLog[GpaToGfn(gpa)] == AccessEntry(GuestPhysToVirt(gpa), gpa, mode)
  {
    var gfn := GpaToGfn(gpa);
    if !IsAccessed(s.info.value, gfn, mode) {
      var log' := Record(s.info.value.accessLog, gfn, GuestPhysToVirt(gpa), gpa, mode);
      assert s'.info.value.accessLog == log';
    }
  }

  /** After a read, write or exec access to a kernel page, the page's bits
      include that access kind. */
  lemma PageTrackSetsMode(s: State, gpa: u64, mode: Flags, s': State)
    requires s.info.Some? && s' == PageTrack(s, gpa, mode)
    requires InKernelTextPage(s, GpaToGfn(gpa)) && SingleMode(mode)
    ensures s'.info.Some? && GpaToGfn(gpa) in s'.info.value.accessLog
    ensures (s'.info.value.accessLog[GpaToGfn(gpa)].rwx & mode) == mode
  {
    var gfn := GpaToGfn(gpa);
    var log := s.info.value.accessLog;
    if IsAccessed(s.info.value, gfn, mode) {
      assert s' == s;
      assert gfn in log && (log[gfn].rwx & mode) != 0;
      SingleModeAccessed(log[gfn].rwx, mode);
    } else {
      var log' := Record(log, gfn, GuestPhysToVirt(gpa), gpa, mode);
      assert s'.info.value.accessLog == log';
    }
  }

  /** `a | m` keeps every bit of `a` and of `m`. */
  lemma OrKeepsBoth(a: Flags, m: Flags)
    ensures ((a | m) & m) == m && ((a | m) & a) == a
  {
  }

  /** A mode that shares some but not all of its bits with `a` has several bits. */
  lemma PartialOverlapMultiBit(a: Flags, mode: Flags)
    requires (a & mode) != 0 && (a & mode) != mode
    ensures !SingleMode(mode)
  {
  }

  lemma AndSelf(a: Flags)
    ensures (a & a) == a
  {
  }

  /** Sharing a bit with a single-bit mode means having that bit. */
  lemma SingleModeAccessed(a: Flags, mode: Flags)
    requires SingleMode(mode) && (a & mode) != 0
    ensures (a & mode) == mode
  {
  }

  /** Once a page is logged as accessed in a mode it stays so: the
      callback only ever adds bits. */
  lemma AccessedStays(s: State, gpa: u64, mode: Flags, gfn: u64, m: Flags)
    requires s.info.Some? && IsAccessed(s.info.value, gfn, m)
    ensures IsAccessed(PageTrack(s, gpa, mode).info.value, gfn, m)
  {
    var s' := PageTrack(s, gpa, mode);
    PageTrackGrows(s, gpa, mode, s');
    var log := s.info.value.accessLog;
    var log' := s'.info.value.accessLog;
    assert gfn in log && AccessFind(s.info.value, gfn) == Some(log[gfn]);
    var a, b := log[gfn].rwx, log'[gfn].rwx;
    assert (b & a) == a;
    BitsKept(a, b, m);
    assert AccessFind(s'.info.value, gfn) == Some(log'[gfn]);
  }

  lemma BitsKept(a: Flags, b: Flags, m: Flags)
    requires (b & a) == a && (a & m) != 0
    ensures (b & m) != 0
  {
  }

  /** An entry that shares some but not all bits of `mode` counts as
      accessed and is left alone, so it does not gain the missing bits.
      Such a mode always has several bits. */
  lemma MultiBitModeNotAdded(s: State, gpa: u64, mode: Flags)
    requires s.info.Some? && GpaToGfn(gpa) in s.info.value.accessLog
    requires var rwx := s.info.value.accessLog[GpaToGfn(gpa)].rwx;
             (rwx & mode) != 0 && (rwx & mode) != mode
    ensures !SingleMode(mode)
    ensures PageTrack(s, gpa, mode) == s
    ensures (PageTrack(s, gpa, mode).info.value.accessLog[GpaToGfn(gpa)].rwx & mode) != mode
  {
    PartialOverlapMultiBit(s.info.value.accessLog[GpaToGfn(gpa)].rwx, mode);
    AccessedSkipped(s, gpa, mode);
  }

  /** An access in a mode the page already has leaves the state alone. */
  lemma AccessedSkipped(s: State, gpa: u64, mode: Flags)
    requires s.info.Some? && GpaToGfn(gpa) in s.info.value.accessLog
    requires (s.info.value.accessLog[GpaToGfn(gpa)].rwx & mode) != 0
    ensures PageTrack(s, gpa, mode) == s
  {
    assert IsAccessed(s.info.value, GpaToGfn(gpa), mode);
  }

  // ---------------------------------------------------------------------
  // Hooks

  /** `mlearn_set_hook_page`: `hookable` holds the gfns for which KVM has a
      memory slot and the entry allocation succeeds. */
  function SetHookPage(info: Info, gfn: u64, mode: Flags, hookable: set<u64>): (r: (int, Info))
    ensures r.0 == 0 <==> gfn in hookable
    ensures r.0 != 0 ==> r == (-EINVAL, info)
    ensures r.0 == 0 ==> r.1 == info.(hooks := info.hooks + [Hook(gfn, mode)])
  {
    if gfn in hookable then (0, info.(hooks := info.hooks + [Hook(gfn, mode)]))
    else (-EINVAL, info)
  }

  /** `mlearn_set_hook_range`: hook `gfn_s <= gfn < gfn_e` in `mode`,
      skipping pages that cannot be hooked; only the hook table grows. */
  function SetHookRange(info: Info, gs: u64, ge: u64, mode: Flags, hookable: set<u64>): (info': Info)
    ensures info'.accessLog == info.accessLog && info'.wqueue == info.wqueue
    ensures |info'.hooks| >= |info.hooks| && info'.hooks[..|info.hooks|] == info.hooks
    ensures forall j | |info.hooks| <= j < |info'.hooks| ::
              gs <= info'.hooks[j].gfn < ge && info'.hooks[j].gfn in hookable && info'.hooks[j].rwx == mode
    decreases ge - gs
  {
    if gs >= ge then info
    else
      var next := SetHookPage(info, gs, mode, hookable).1;
      var r := SetHookRange(next, gs + 1, ge, mode, hookable);
      assert r.hooks[..|info.hooks|] == r.hooks[..|next.hooks|][..|info.hooks|];
      r
  }

  /** Some hook from index `from` on is for page `g`. */
  predicate HookedFrom(hooks: seq<Hook>, from: nat, g: u64) {
    exists j | from <= j < |hooks| :: hooks[j].gfn == g
  }

  /** Every hookable page of the range is hooked. */
  lemma {:induction false} SetHookRangeComplete(info: Info, gs: u64, ge: u64, mode: Flags, hookable: set<u64>, g: u64)
    requires gs <= g < ge && g in hookable
    ensures HookedFrom(SetHookRange(info, gs, ge, mode, hookable).hooks, |info.hooks|, g)
    decreases ge - gs
  {
    var next := SetHookPage(info, gs, mode, hookable).1;
    var r := SetHookRange(next, gs + 1, ge, mode, hookable);
    assert r == SetHookRange(info, gs, ge, mode, hookable);
    if g == gs {
      assert r.hooks[..|next.hooks|] == next.hooks;
      assert r.hooks[|info.hooks|] == next.hooks[|info.hooks|];
    } else {
      SetHookRangeComplete(next, gs + 1, ge, mode, hookable, g);
      var j :| |next.hooks| <= j < |r.hooks| && r.hooks[j].gfn == g;
      assert |info.hooks| <= j;
    }
  }

  /** Every hookable page of the range is hooked, for all pages at once. */
  lemma SetHookRangeCovers(info: Info, gs: u64, ge: u64, mode: Flags, hookable: set<u64>)
    ensures forall g: u64 | gs <= g < ge && g in hookable ::
              HookedFrom(SetHookRange(info, gs, ge, mode, hookable).hooks, |info.hooks|, g)
  {
    forall g: u64 | gs <= g < ge && g in hookable
      ensures HookedFrom(SetHookRange(info, gs, ge, mode, hookable).hooks, |info.hooks|, g)
    {
      SetHookRangeComplete(info, gs, ge, mode, hookable, g);
    }
  }

  /** The pages are hooked in increasing order, so each at most once. */
  lemma {:induction false} SetHookRangeIncreasing(info: Info, gs: u64, ge: u64, mode: Flags, hookable: set<u64>)
    ensures forall a, b | |info.hooks| <= a < b < |SetHookRange(info, gs, ge, mode, hookable).hooks| ::
              SetHookRange(info, gs, ge, mode, hookable).hooks[a].gfn
              < SetHookRange(info, gs, ge, mode, hookable).hooks[b].gfn
    decreases ge - gs
  {
    if gs < ge {
      var next := SetHookPage(info, gs, mode, hookable).1;
      var r := SetHookRange(next, gs + 1, ge, mode, hookable);
      assert r == SetHookRange(info, gs, ge, mode, hookable);
      SetHookRangeIncreasing(next, gs + 1, ge, mode, hookable);
      forall a, b | |info.hooks| <= a < b < |r.hooks|
        ensures r.hooks[a].gfn < r.hooks[b].gfn
      {
        if a < |next.hooks| {
          assert r.hooks[..|next.hooks|] == next.hooks;
          assert r.hooks[a] == next.hooks[a] && next.hooks[a].gfn == gs;
          assert |next.hooks| <= b;
          assert gs + 1 <= r.hooks[b].gfn;
        }
      }
    }
  }

  /** `mlearn_update_hook_all`: for an initialised module and a kernel page,
      queue a request to hook the page in every mode; 0 only when the
      queue entry cannot be allocated (`allocOk` false). */
  function UpdateHookAll(s: State, gfn: u64, allocOk: bool): (r: (int, State))
    ensures r.0 == 0 || r.0 == 1
    ensures r.0 == 0 <==> s.info.Some? && InKernelTextPage(s, gfn) && !allocOk
    ensures s.info.Some? && InKernelTextPage(s, gfn) && allocOk ==>
              r.1 == s.(info := Some(s.info.value.(wqueue := [Hook(gfn, TrackAll)] + s.info.value.wqueue)))
    ensures !(s.info.Some? && InKernelTextPage(s, gfn) && allocOk) ==> r.1 == s
  {
    if s.info.Some? && InKernelTextPage(s, gfn) then
      if !allocOk then (0, s)
      else (1, s.(info := Some(s.info.value.(wqueue := [Hook(gfn, TrackAll)] + s.info.value.wqueue))))
    else (1, s)
  }

  /** `mlearn_init`: on allocation failure `g_info` is NULL and -ENOMEM is
      returned; otherwise the kernel page range is set, the tables are
      empty and the range `[start, end)` is hooked in every mode. */
  function Init(s: State, allocOk: bool, hookable: set<u64>): (r: (int, State))
    ensures !allocOk ==> r == (-ENOMEM, s.(info := None))
    ensures allocOk ==> r.0 == 0 && r.1.info.Some? && r.1.packet == s.packet
    ensures allocOk ==> r.1.startPage == GuestPhysBase / PageSize && r.1.endPage == (GuestPhysBase + KernelSize) / PageSize
    ensures allocOk ==> r.1.info.value.accessLog == map[] && r.1.info.value.wqueue == []
    ensures allocOk ==> forall h | h in r.1.info.value.hooks ::
              r.1.startPage <= h.gfn < r.1.endPage && h.gfn in hookable && h.rwx == TrackAll
    ensures allocOk ==> forall g: u64 | r.1.startPage <= g < r.1.endPage && g in hookable ::
              exists h | h in r.1.info.value.hooks :: h.gfn == g
  {
    if !allocOk then (-ENOMEM, s.(info := None))
    else
      var start := GuestPhysBase / PageSize;
      var end := Wrap64(GuestPhysBase + KernelSize) / PageSize;
      var info := SetHookRange(EmptyInfo, start, end, TrackAll, hookable);
      SetHookRangeCovers(EmptyInfo, start, end, TrackAll, hookable);
      (0, State(Some(info), start, end, s.packet))
  }

  /** The hooked range is half open but the page test is inclusive: the
      end page counts as kernel text, yet `mlearn_init` never hooks it. */
  lemma EndPageNeverHooked(s: State, hookable: set<u64>)
    ensures var s' := Init(s, true, hookable).1;
            && s'.endPage == 0x10_0000
            && InKernelTextPage(s', s'.endPage)
            && forall h | h in s'.info.value.hooks :: h.gfn != s'.endPage
  {
  }

  /** The end page reaches past the text range: every gpa in it is tracked,
      but only its first byte is kernel text, so every later gpa keeps its
      physical address instead of a kernel virtual one. */
  lemma EndPagePastKernelText(s: State, hookable: set<u64>, gpa: u64)
    requires GpaToGfn(gpa) == Init(s, true, hookable).1.endPage
    ensures InKernelTextPage(Init(s, true, hookable).1, GpaToGfn(gpa))
    ensures InKernelText(gpa) <==> gpa == 0x1_0000_0000
    ensures gpa != 0x1_0000_0000 ==> GuestPhysToVirt(gpa) == gpa
  {
  }

  // ---------------------------------------------------------------------
  // The packet

  /** `mlearn_add_packet_log`: store `gva` at index `size` unless full. */
  function AddPacketLog(p: Packet, gva: u64): (r: (int, Packet))
    requires p.Valid()
    ensures r.1.Valid()
    ensures r.0 == 0 <==> p.size == PacketMaxSize
    ensures r.0 == 0 ==> r.1 == p
    ensures r.0 != 0 ==> r.0 == 1 && r.1.size == p.size + 1 && r.1.Contents() == p.Contents() + [gva]
    ensures r.1.gvas[r.1.size..] == p.gvas[r.1.size..]
  {
    if p.size >= PacketMaxSize then (0, p)
    else (1, Packet(p.gvas[p.size := gva], p.size + 1))
  }

  /** The `mlearn_add_packet_log` loop of `mlearn_log` over `gvas`, stopping
      at the first refused address: whether all fit, and the packet. */
  function FillPacket(p: Packet, gvas: seq<u64>): (r: (bool, Packet))
    requires p.Valid()
    ensures r.1.Valid()
    ensures r.0 <==> p.size + |gvas| <= PacketMaxSize
    ensures r.0 ==> r.1.Contents() == p.Contents() + gvas
    ensures !r.0 ==> r.1.size == PacketMaxSize && r.1.Contents() == p.Contents() + gvas[..PacketMaxSize - p.size]
    ensures r.1.gvas[r.1.size..] == p.gvas[r.1.size..]
    decreases |gvas|
  {
    if gvas == [] then (true, p)
    else
      var (ok, p1) := AddPacketLog(p, gvas[0]);
      if ok == 0 then (false, p1)
      else
        var r := FillPacket(p1, gvas[1..]);
        assert p.Contents() + [gvas[0]] + gvas[1..] == p.Contents() + gvas;
        assert !r.0 ==> p.Contents() + [gvas[0]] + gvas[1..][..PacketMaxSize - p1.size]
                        == p.Contents() + gvas[..PacketMaxSize - p.size];
        r
  }

  /** `order` lists every key of the log exactly once: the order
      `hash_for_each` visits the entries in. */
  predicate Enumerates(order: seq<u64>, keys: set<u64>) {
    && (forall j | 0 <= j < |order| :: order[j] in keys)
    && (forall g | g in keys :: g in order)
    && (forall a, b | 0 <= a < b < |order| :: order[a] != order[b])
  }

  /** The gvas of the logged entries, in visiting order. */
  function LoggedGvas(log: map<u64, AccessEntry>, order: seq<u64>): seq<u64>
    requires forall j | 0 <= j < |order| :: order[j] in log
  {
    seq(|order|, j requires 0 <= j < |order| => log[order[j]].gva)
  }

  /** `mlearn_log`: append every logged gva to the packet and copy it out
      (`copyOk` is whether `copy_to_user` succeeds). Returns the result
      code, the new state and what user space received. On overflow or a
      failed copy the result is 1 and the fill count is not reset. */
  function Log(s: State, order: seq<u64>, copyOk: bool): (r: (int, State, Option<Packet>))
    requires s.info.Some? && s.packet.Valid()
    requires Enumerates(order, s.info.value.accessLog.Keys)
    ensures r.1.info == s.info && r.1.startPage == s.startPage && r.1.endPage == s.endPage
    ensures r.1.packet.Valid()
    ensures r.0 == 0 <==> s.packet.size + |order| <= PacketMaxSize && copyOk
    ensures r.0 != 0 ==> r.0 == 1 && r.2.None?
    ensures r.0 == 0 ==>
              && r.2.Some? && r.2.value.Valid()
              && r.2.value.Contents() == s.packet.Contents() + LoggedGvas(s.info.value.accessLog, order)
              && r.1.packet == r.2.value.(size := 0)
    ensures s.packet.size + |order| > PacketMaxSize ==>
              && r.1.packet.size == PacketMaxSize
              && r.1.packet.Contents()
                 == s.packet.Contents() + LoggedGvas(s.info.value.accessLog, order)[..PacketMaxSize - s.packet.size]
    ensures s.packet.size + |order| <= PacketMaxSize && !copyOk ==>
              r.1.packet.Contents() == s.packet.Contents() + LoggedGvas(s.info.value.accessLog, order)
  {
    var (fits, p) := FillPacket(s.packet, LoggedGvas(s.info.value.accessLog, order));
    if !fits then (1, s.(packet := p), None)
    else if !copyOk then (1, s.(packet := p), None)
    else (0, s.(packet := p.(size := 0)), Some(p))
  }

  /** Once the packet is full, every later `mlearn_log` of a non-empty log
      fails without changing anything: the count is only reset on success. */
  lemma LogStaysFull(s: State, order: seq<u64>, copyOk: bool)
    requires s.info.Some? && s.packet.Valid() && s.packet.size == PacketMaxSize
    requires Enumerates(order, s.info.value.accessLog.Keys) && order != []
    ensures Log(s, order, copyOk).0 == 1 && Log(s, order, copyOk).1 == s
  {
  }

  // ---------------------------------------------------------------------
  // Flushing

  /** `mlearn_set_hook_page` over `requests` in order; the hooks added. */
  function Rehook(info: Info, requests: seq<Hook>, hookable: set<u64>): (r: Info)
    ensures r.accessLog == info.accessLog && r.wqueue == info.wqueue
    ensures r.hooks == info.hooks + Hookable(requests, hookable)
    decreases |requests|
  {
    if requests == [] then info
    else
      var next := SetHookPage(info, requests[0].gfn, requests[0].rwx, hookable).1;
      var r := Rehook(next, requests[1..], hookable);
      var head := if requests[0].gfn in hookable then [requests[0]] else [];
      assert next.hooks == info.hooks + head;
      assert Hookable(requests, hookable) == head + Hookable(requests[1..], hookable);
      assert info.hooks + head + Hookable(requests[1..], hookable)
             == info.hooks + (head + Hookable(requests[1..], hookable));
      r
  }

  /** Reference: the requests whose page can be hooked, in order. */
  function Hookable(requests: seq<Hook>, hookable: set<u64>): seq<Hook> {
    if requests == [] then []
    else (if requests[0].gfn in hookable then [requests[0]] else []) + Hookable(requests[1..], hookable)
  }

  lemma {:induction false} HookableMembers(requests: seq<Hook>, hookable: set<u64>)
    ensures forall h :: h in Hookable(requests, hookable) <==> h in requests && h.gfn in hookable
  {
    if requests != [] {
      HookableMembers(requests[1..], hookable);
    }
  }

  /** A request to hook each logged page, in visiting order, in every mode. */
  function LoggedHooks(order: seq<u64>): (hs: seq<Hook>)
    ensures |hs| == |order|
    ensures forall j | 0 <= j < |order| :: hs[j] == Hook(order[j], TrackAll)
  {
    seq(|order|, j requires 0 <= j < |order| => Hook(order[j], TrackAll))
  }

  /** `mlearn_flush`: re-hook every logged page in every mode and every
      queued request with its mode, then empty the log, the hook table and
      the queue. Returns the result code, the new state and the hooks
      installed with KVM (which the emptied table no longer lists). */
  function Flush(s: State, order: seq<u64>, hookable: set<u64>): (r: (int, State, seq<Hook>))
    requires s.info.Some?
    requires Enumerates(order, s.info.value.accessLog.Keys)
    ensures r.0 == 0
    ensures r.1 == s.(info := Some(EmptyInfo))
    ensures r.2 == Hookable(LoggedHooks(order) + s.info.value.wqueue, hookable)
  {
    var info := s.info.value;
    var logged := LoggedHooks(order);
    var afterLog := Rehook(info, logged, hookable);
    var afterQueue := Rehook(afterLog, info.wqueue, hookable);
    HookableAppend(logged, info.wqueue, hookable);
    assert afterQueue.hooks == info.hooks + (Hookable(logged, hookable) + Hookable(info.wqueue, hookable));
    (0, s.(info := Some(EmptyInfo)), afterQueue.hooks[|info.hooks|..])
  }

  lemma {:induction false} HookableAppend(a: seq<Hook>, b: seq<Hook>, hookable: set<u64>)
    ensures Hookable(a + b, hookable) == Hookable(a, hookable) + Hookable(b, hookable)
  {
    if a == [] {
      assert a + b == b;
    } else {
      var head := if a[0].gfn in hookable then [a[0]] else [];
      assert (a + b)[0] == a[0];
      assert (a + b)[1..] == a[1..] + b;
      HookableAppend(a[1..], b, hookable);
      assert Hookable(a + b, hookable) == head + (Hookable(a[1..], hookable) + Hookable(b, hookable));
      assert Hookable(a, hookable) == head + Hookable(a[1..], hookable);
    }
  }

  /** The logged-page requests are the logged pages, each in every mode. */
  lemma LoggedHooksMembers(order: seq<u64>, keys: set<u64>)
    requires Enumerates(order, keys)
    ensures forall h :: h in LoggedHooks(order) <==> h.gfn in keys && h.rwx == TrackAll
  {
    var logged := LoggedHooks(order);
    forall h: Hook | h.gfn in keys && h.rwx == TrackAll
      ensures h in logged
    {
      var j :| 0 <= j < |order| && order[j] == h.gfn;
      assert logged[j] == h;
    }
  }

  /** After a flush every hookable logged page is hooked in every mode,
      every hookable queued request with its own mode, and nothing else. */
  lemma FlushRehooks(s: State, order: seq<u64>, hookable: set<u64>)
    requires s.info.Some?
    requires Enumerates(order, s.info.value.accessLog.Keys)
    ensures var installed := Flush(s, order, hookable).2;
            forall h :: h in installed <==>
              h.gfn in hookable
              && ((h.gfn in s.info.value.accessLog && h.rwx == TrackAll) || h in s.info.value.wqueue)
  {
    var logged := LoggedHooks(order);
    var queued := s.info.value.wqueue;
    var installed := Flush(s, order, hookable).2;
    assert installed == Hookable(logged + queued, hookable);
    HookableMembers(logged + queued, hookable);
    LoggedHooksMembers(order, s.info.value.accessLog.Keys);
    forall h: Hook
      ensures h in logged + queued <==> h in logged || h in queued
    {
    }
  }

  /** After a flush no page counts as accessed in any mode. */
  lemma FlushForgets(s: State, order: seq<u64>, hookable: set<u64>, gfn: u64, m: Flags)
    requires s.info.Some?
    requires Enumerates(order, s.info.value.accessLog.Keys)
    ensures !IsAccessed(Flush(s, order, hookable).1.info.value, gfn, m)
  {
  }
}
