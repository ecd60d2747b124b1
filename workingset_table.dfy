/**
 * The fixed-window working-set table of os_keshe_workingset/kernel_module.c: a
 * global table of MAX_PROCESSES slots, each holding the working-set record of
 * one process over at most MAX_PAGES pages, and a count of created processes.
 */
module WorkingSetTable {
  import opened Optional

  /** MAX_PROCESSES of kernel_module.h. */
  const MaxProcesses: nat := 10

  /** MAX_PAGES of kernel_module.h. */
  const MaxPages: nat := 256

  /** The process id that marks a free slot. */
  const FreeId: int := -1

  /** PageInfo: a page number and its working-set bit (an int the module only sets to 0 or 1). */
  datatype PageInfo = PageInfo(pageId: int, inWorkingSet: bool)

  /**
   * WorkingSet, the only content of a ProcessControlBlock. `pages` is the
   * embedded fixed array of MAX_PAGES entries, of which the first `pageCount`
   * are in use.
   */
  datatype WorkingSet = WorkingSet(processId: int, pageCount: int, workingSetSize: int, pages: seq<PageInfo>)

  /** What every reachable slot satisfies. */
  ghost predicate SlotValid(ws: WorkingSet)
  {
    |ws.pages| == MaxPages && ws.pageCount <= MaxPages && ws.workingSetSize >= 0
  }

  /** A slot of the zero-initialised static table, before Kernel_Init runs. */
  const ZeroSlot: WorkingSet := WorkingSet(0, 0, 0, seq(MaxPages, j => PageInfo(0, false)))

  /** A slot as Kernel_Init leaves it. */
  const FreeSlot: WorkingSet := WorkingSet(FreeId, 0, 0, seq(MaxPages, j => PageInfo(j, false)))

  /** How many entries the loops `for (j = 0; j < pageCount; j++)` visit. */
  function UsedPages(ws: WorkingSet): nat
  {
    if ws.pageCount < 0 then 0 else ws.pageCount
  }

  function Resident(p: PageInfo): nat
  {
    if p.inWorkingSet then 1 else 0
  }

  /** The number of entries of `s` in the working set. */
  function ResidentCount(s: seq<PageInfo>): (n: nat)
    ensures n <= |s|
  {
    if |s| == 0 then 0 else ResidentCount(s[..|s| - 1]) + Resident(s[|s| - 1])
  }

  /** The number of pages in use that are in the working set. */
  function SlotResident(ws: WorkingSet): nat
    requires SlotValid(ws)
  {
    ResidentCount(ws.pages[..UsedPages(ws)])
  }

  lemma PrefixStep(s: seq<PageInfo>, m: nat)
    requires m < |s|
    ensures ResidentCount(s[..m + 1]) == ResidentCount(s[..m]) + Resident(s[m])
  {
    assert s[..m + 1][..m] == s[..m];
  }

  /** Counting a longer prefix never gives less. */
  lemma {:induction false} PrefixMono(s: seq<PageInfo>, i: nat, j: nat)
    requires i <= j <= |s|
    ensures ResidentCount(s[..i]) <= ResidentCount(s[..j])
    decreases j - i
  {
    if i < j {
      PrefixStep(s, i);
      PrefixMono(s, i + 1, j);
    }
  }

  /** Replacing one entry changes the count by the difference of the two residencies. */
  lemma {:induction false} ResidentCountUpdate(s: seq<PageInfo>, i: nat, x: PageInfo)
    requires i < |s|
    ensures ResidentCount(s[i := x]) == ResidentCount(s) - Resident(s[i]) + Resident(x)
  {
    var t := s[i := x];
    if i == |s| - 1 {
      assert t[..|t| - 1] == s[..|s| - 1];
    } else {
      assert t[..|t| - 1] == s[..|s| - 1][i := x];
      ResidentCountUpdate(s[..|s| - 1], i, x);
    }
  }

  /** A table with no entry in the working set counts zero. */
  lemma {:induction false} ResidentCountNone(s: seq<PageInfo>)
    requires forall k :: 0 <= k < |s| ==> !s[k].inWorkingSet
    ensures ResidentCount(s) == 0
  {
    if |s| > 0 {
      ResidentCountNone(s[..|s| - 1]);
    }
  }

  // ---------------------------------------------------------------------------
  // Slot lookup
  // ---------------------------------------------------------------------------

  /** The first slot that carries `id`, as the linear searches of the module find it. */
  function FirstSlot(t: seq<WorkingSet>, id: int): (r: Option<nat>)
    ensures r.Some? ==> r.value < |t| && t[r.value].processId == id
    ensures r.Some? ==> forall k :: 0 <= k < r.value ==> t[k].processId != id
    ensures r.None? ==> forall k :: 0 <= k < |t| ==> t[k].processId != id
  {
    if |t| == 0 then None
    else if t[0].processId == id then Some(0)
    else match FirstSlot(t[1..], id)
      case None => None
      case Some(v) => Some(v + 1)
  }

  // ---------------------------------------------------------------------------
  // Kernel_CreateProcess and Kernel_ReferencePage on one slot
  // ---------------------------------------------------------------------------

  /** The slot `ws` after Kernel_CreateProcess has filled it. */
  function Created(ws: WorkingSet, processId: int, maxPages: int, workingSetSize: int): (r: WorkingSet)
    ensures r.processId == processId && r.pageCount <= MaxPages && r.workingSetSize >= 1
    ensures |r.pages| == |ws.pages|
  {
    var pageCount := if maxPages > MaxPages then MaxPages else maxPages;
    WorkingSet(processId, pageCount, if workingSetSize > 0 then workingSetSize else 1,
               seq(|ws.pages|, j requires 0 <= j < |ws.pages| => if j < pageCount then PageInfo(j, false) else ws.pages[j]))
  }

  /**
   * A created slot carries the new id, uses min(maxPages, MAX_PAGES) pages,
   * has a working-set size of at least one (the requested one when positive),
   * and its pages in use are numbered in order and out of the working set.
   */
  lemma CreatedSlot(ws: WorkingSet, processId: int, maxPages: int, workingSetSize: int)
    requires SlotValid(ws)
    ensures var c := Created(ws, processId, maxPages, workingSetSize);
      && SlotValid(c)
      && c.processId == processId
      && c.pageCount == (if maxPages <= MaxPages then maxPages else MaxPages)
      && c.workingSetSize >= 1
      && (workingSetSize > 0 ==> c.workingSetSize == workingSetSize)
      && (forall j :: 0 <= j < c.pageCount ==> c.pages[j] == PageInfo(j, false))
      && (forall j :: 0 <= j < MaxPages && j >= c.pageCount ==> c.pages[j] == ws.pages[j])
      && SlotResident(c) == 0
  {
    var c := Created(ws, processId, maxPages, workingSetSize);
    ResidentCountNone(c.pages[..UsedPages(c)]);
  }

  /** The slot `ws` after Kernel_ReferencePage has marked page `pageId`. */
  function Referenced(ws: WorkingSet, pageId: nat): (r: WorkingSet)
    requires pageId < |ws.pages|
    ensures r.processId == ws.processId && r.pageCount == ws.pageCount && r.workingSetSize == ws.workingSetSize
    ensures |r.pages| == |ws.pages| && r.pages[pageId].inWorkingSet
  {
    ws.(pages := ws.pages[pageId := ws.pages[pageId].(inWorkingSet := true)])
  }

  /**
   * A reference puts exactly that page into the working set, touching no other
   * entry, so the resident count grows by one unless the page was already in.
   */
  lemma ReferencedSlot(ws: WorkingSet, pageId: nat)
    requires SlotValid(ws) && pageId < UsedPages(ws)
    ensures var r := Referenced(ws, pageId);
      && SlotValid(r)
      && r.pages[pageId].inWorkingSet && r.pages[pageId].pageId == ws.pages[pageId].pageId
      && (forall j :: 0 <= j < MaxPages && j != pageId ==> r.pages[j] == ws.pages[j])
      && SlotResident(r) == SlotResident(ws) + (if ws.pages[pageId].inWorkingSet then 0 else 1)
  {
    var r := Referenced(ws, pageId);
    var n := UsedPages(ws);
    assert r.pages[..n] == ws.pages[..n][pageId := r.pages[pageId]];
    ResidentCountUpdate(ws.pages[..n], pageId, r.pages[pageId]);
  }

  // ---------------------------------------------------------------------------
  // Kernel_UpdateWorkingSets on one slot
  // ---------------------------------------------------------------------------

  /**
   * The trim pass keeps a resident entry `k` exactly when at least `toRemove`
   * resident entries come before it: the first `toRemove` resident entries go.
   */
  predicate Kept(s: seq<PageInfo>, k: nat, toRemove: int)
    requires k < |s|
  {
    s[k].inWorkingSet && ResidentCount(s[..k]) >= toRemove
  }

  /** The slot after the trim pass: the lowest-indexed resident pages cleared until the size fits. */
  function Trim(ws: WorkingSet): (r: WorkingSet)
    requires SlotValid(ws)
    ensures r.processId == ws.processId && r.pageCount == ws.pageCount && r.workingSetSize == ws.workingSetSize
    ensures |r.pages| == |ws.pages|
  {
    var n := UsedPages(ws);
    var count := SlotResident(ws);
    if count <= ws.workingSetSize then ws
    else
      var toRemove := count - ws.workingSetSize;
      ws.(pages := seq(|ws.pages|, k requires 0 <= k < |ws.pages| =>
                         if k < n then ws.pages[k].(inWorkingSet := Kept(ws.pages, k, toRemove)) else ws.pages[k]))
  }

  /** What Kernel_UpdateWorkingSets does to one slot: free slots are skipped. */
  function UpdateSlot(ws: WorkingSet): (r: WorkingSet)
    requires SlotValid(ws)
    ensures r.processId == ws.processId && r.pageCount == ws.pageCount && r.workingSetSize == ws.workingSetSize
    ensures |r.pages| == |ws.pages|
  {
    if ws.processId == FreeId then ws else Trim(ws)
  }

  /** Clearing the first `toRemove` resident entries of a prefix leaves the rest of its count. */
  lemma {:induction false} KeptCount(s: seq<PageInfo>, t: seq<PageInfo>, toRemove: nat, m: nat)
    requires |t| == |s| && m <= |s|
    requires forall k :: 0 <= k < m ==> t[k].inWorkingSet == Kept(s, k, toRemove)
    ensures ResidentCount(t[..m]) == if ResidentCount(s[..m]) >= toRemove then ResidentCount(s[..m]) - toRemove else 0
  {
    if m > 0 {
      KeptCount(s, t, toRemove, m - 1);
      PrefixStep(s, m - 1);
      PrefixStep(t, m - 1);
    }
  }

  /**
   * The trim only clears working-set bits of pages in use, and leaves the
   * header untouched; a slot within its size is unchanged, and a slot over it
   * ends with exactly `workingSetSize` resident pages, so exactly
   * `count - workingSetSize` bits are cleared.
   */
  lemma TrimSpec(ws: WorkingSet)
    requires SlotValid(ws)
    ensures var t := Trim(ws);
      && SlotValid(t)
      && t.processId == ws.processId && t.pageCount == ws.pageCount && t.workingSetSize == ws.workingSetSize
      && (forall k :: 0 <= k < MaxPages ==>
            t.pages[k].pageId == ws.pages[k].pageId && (t.pages[k].inWorkingSet ==> ws.pages[k].inWorkingSet))
      && (forall k :: UsedPages(ws) <= k < MaxPages ==> t.pages[k] == ws.pages[k])
      && (SlotResident(ws) <= ws.workingSetSize ==> t == ws)
      && (SlotResident(ws) > ws.workingSetSize ==> SlotResident(t) == ws.workingSetSize)
      && SlotResident(t) <= ws.workingSetSize
  {
    var count := SlotResident(ws);
    if count > ws.workingSetSize {
      var t := Trim(ws);
      var n := UsedPages(ws);
      var toRemove := count - ws.workingSetSize;
      KeptCount(ws.pages, t.pages, toRemove, n);
    }
  }

  /** The cleared pages are the lowest-indexed resident ones: every cleared page precedes every kept one. */
  lemma TrimLowestFirst(ws: WorkingSet)
    requires SlotValid(ws)
    ensures var t := Trim(ws);
      forall j, k ::
        (0 <= j < UsedPages(ws) && 0 <= k < UsedPages(ws) &&
         ws.pages[j].inWorkingSet && !t.pages[j].inWorkingSet && t.pages[k].inWorkingSet) ==> j < k
  {
    var t := Trim(ws);
    var n := UsedPages(ws);
    forall j, k | 0 <= j < n && 0 <= k < n && ws.pages[j].inWorkingSet && !t.pages[j].inWorkingSet && t.pages[k].inWorkingSet
      ensures j < k
    {
      if k <= j {
        PrefixMono(ws.pages, k, j);
      }
    }
  }

  /**
   * After the update every occupied slot fits its working-set size, and a
   * second update changes nothing.
   */
  lemma UpdateSlotSpec(ws: WorkingSet)
    requires SlotValid(ws)
    ensures SlotValid(UpdateSlot(ws))
    ensures ws.processId != FreeId ==> SlotResident(UpdateSlot(ws)) <= UpdateSlot(ws).workingSetSize
    ensures ws.processId == FreeId ==> UpdateSlot(ws) == ws
    ensures UpdateSlot(UpdateSlot(ws)) == UpdateSlot(ws)
  {
    TrimSpec(ws);
    if ws.processId != FreeId {
      TrimSpec(Trim(ws));
    }
  }

  /** The counting loop of Kernel_UpdateWorkingSets: the resident pages in use of one slot. */
  method CountSlot(ws: WorkingSet) returns (count: nat)
    requires SlotValid(ws)
    ensures count == SlotResident(ws)
  {
    var n := UsedPages(ws);
    count := 0;
    var j := 0;
    while j < ws.pageCount
      invariant 0 <= j <= n
      invariant count == ResidentCount(ws.pages[..j])
    {
      PrefixStep(ws.pages, j);
      if ws.pages[j].inWorkingSet {
        count := count + 1;
      }
      j := j + 1;
    }
  }

  /**
   * The body of Kernel_UpdateWorkingSets for one occupied slot: count the
   * resident pages in use, then clear resident pages from the lowest index up,
   * `count - workingSetSize` of them, when the count is over the size.
   */
  method TrimSlot(ws: WorkingSet) returns (trimmed: WorkingSet)
    requires SlotValid(ws)
    ensures trimmed == Trim(ws)
  {
    var n := UsedPages(ws);
    var count := CountSlot(ws);
    var j := 0;
    trimmed := ws;
    if count > ws.workingSetSize {
      var toRemove := count - ws.workingSetSize;
      ghost var removing := toRemove;
      var pages := ws.pages;
      j := 0;
      while j < ws.pageCount && toRemove > 0
        invariant 0 <= j <= n
        invariant 0 <= toRemove && toRemove + ResidentCount(ws.pages[..j]) == removing
        invariant |pages| == MaxPages
        invariant forall k :: 0 <= k < j ==> pages[k] == ws.pages[k].(inWorkingSet := Kept(ws.pages, k, removing))
        invariant forall k :: j <= k < MaxPages ==> pages[k] == ws.pages[k]
      {
        PrefixStep(ws.pages, j);
        if pages[j].inWorkingSet {
          pages := pages[j := pages[j].(inWorkingSet := false)];
          toRemove := toRemove - 1;
        }
        j := j + 1;
      }
      forall k | j <= k < n
        ensures Kept(ws.pages, k, removing) == ws.pages[k].inWorkingSet
      {
        PrefixMono(ws.pages, j, k);
      }
      trimmed := ws.(pages := pages);
    }
  }

  /**
   * The module's global state: `g_processTable` and `g_processCount`. A new
   * Kernel is the zero-initialised static storage; Init is Kernel_Init.
   */
  class Kernel {
    const table: array<WorkingSet>
    var processCount: int

    ghost predicate Valid()
      reads this, table
    {
      && table.Length == MaxProcesses
      && 0 <= processCount <= MaxProcesses
      && forall i :: 0 <= i < MaxProcesses ==> SlotValid(table[i])
    }

    constructor ()
      ensures Valid() && fresh(table) && processCount == 0
      ensures forall i :: 0 <= i < MaxProcesses ==> table[i] == ZeroSlot
    {
      table := new WorkingSet[MaxProcesses](i => ZeroSlot);
      processCount := 0;
    }

    /** Kernel_Init: zero the count and reset every slot to a free one. */
    method Init()
      requires Valid()
      modifies this`processCount, table
      ensures Valid() && processCount == 0
      ensures forall i :: 0 <= i < MaxProcesses ==> table[i] == FreeSlot
    {
      processCount := 0;
      for i := 0 to MaxProcesses
        invariant processCount == 0
        invariant forall k :: 0 <= k < i ==> table[k] == FreeSlot
        invariant forall k :: i <= k < MaxProcesses ==> table[k] == old(table[k])
      {
        var pages := table[i].pages;
        for j := 0 to MaxPages
          invariant |pages| == MaxPages
          invariant forall m :: 0 <= m < j ==> pages[m] == PageInfo(m, false)
        {
          pages := pages[j := PageInfo(j, false)];
        }
        assert pages == FreeSlot.pages;
        table[i] := WorkingSet(FreeId, 0, 0, pages);
      }
    }

    /**
     * Kernel_CreateProcess: when fewer than MAX_PROCESSES processes exist and a
     * free slot remains, fill the first free slot and count the process
     * (status 0); otherwise change nothing and return -1.
     */
    method CreateProcess(processId: int, maxPages: int, workingSetSize: int) returns (status: int)
      requires Valid()
      modifies this`processCount, table
      ensures Valid()
      ensures var slot := FirstSlot(old(table[..]), FreeId);
        if old(processCount) >= MaxProcesses || slot.None? then
          status == -1 && processCount == old(processCount) && table[..] == old(table[..])
        else
          && status == 0 && processCount == old(processCount) + 1
          && table[..] == old(table[..])[slot.value := Created(old(table[slot.value]), processId, maxPages, workingSetSize)]
    {
      if processCount >= MaxProcesses {
        return -1;
      }
      for i := 0 to MaxProcesses
        invariant forall k :: 0 <= k < i ==> table[k].processId != FreeId
      {
        if table[i].processId == FreeId {
          var ws := table[i];
          var pageCount := if maxPages > MaxPages then MaxPages else maxPages;
          var pages := ws.pages;
          var j := 0;
          while j < pageCount
            invariant 0 <= j <= UsedPages(WorkingSet(processId, pageCount, 0, pages))
            invariant |pages| == MaxPages
            invariant forall m :: 0 <= m < j ==> pages[m] == PageInfo(m, false)
            invariant forall m :: j <= m < MaxPages ==> pages[m] == ws.pages[m]
          {
            pages := pages[j := PageInfo(j, false)];
            j := j + 1;
          }
          var created := WorkingSet(processId, pageCount, if workingSetSize > 0 then workingSetSize else 1, pages);
          assert created == Created(ws, processId, maxPages, workingSetSize);
          CreatedSlot(ws, processId, maxPages, workingSetSize);
          table[i] := created;
          processCount := processCount + 1;
          return 0;
        }
      }
      return -1;
    }

    /**
     * Kernel_ReferencePage: find the first slot carrying `processId`; if there
     * is one and `pageId` is one of its pages in use, put that page into the
     * working set (status 0); otherwise change nothing and return -1.
     */
    method ReferencePage(processId: int, pageId: int) returns (status: int)
      requires Valid()
      modifies table
      ensures Valid()
      ensures var slot := FirstSlot(old(table[..]), processId);
        if slot.Some? && 0 <= pageId < old(table[slot.value]).pageCount then
          status == 0 && table[..] == old(table[..])[slot.value := Referenced(old(table[slot.value]), pageId)]
        else
          status == -1 && table[..] == old(table[..])
    {
      var found: Option<nat> := None;
      var i := 0;
      while i < MaxProcesses
        invariant 0 <= i <= MaxProcesses && found.None?
        invariant forall k :: 0 <= k < i ==> table[k].processId != processId
      {
        if table[i].processId == processId {
          found := Some(i);
          break;
        }
        i := i + 1;
      }
      if found.None? {
        return -1;
      }
      var slot := found.value;
      if pageId < 0 || pageId >= table[slot].pageCount {
        return -1;
      }
      ReferencedSlot(table[slot], pageId);
      table[slot] := Referenced(table[slot], pageId);
      return 0;
    }

    /**
     * Kernel_UpdateWorkingSets: every occupied slot over its working-set size
     * loses its lowest-indexed resident pages until it fits; free slots are skipped.
     */
    method UpdateWorkingSets()
      requires Valid()
      modifies table
      ensures Valid()
      ensures forall i :: 0 <= i < MaxProcesses ==> table[i] == UpdateSlot(old(table[i]))
      ensures forall i :: 0 <= i < MaxProcesses && table[i].processId != FreeId ==>
        SlotResident(table[i]) <= table[i].workingSetSize
    {
      for i := 0 to MaxProcesses
        invariant forall k :: 0 <= k < i ==> table[k] == UpdateSlot(old(table[k]))
        invariant forall k :: i <= k < MaxProcesses ==> table[k] == old(table[k])
      {
        var ws := table[i];
        if ws.processId == FreeId {
          continue;
        }
        var trimmed := TrimSlot(ws);
        table[i] := trimmed;
      }
      forall i | 0 <= i < MaxProcesses
        ensures SlotValid(table[i])
        ensures table[i].processId != FreeId ==> SlotResident(table[i]) <= table[i].workingSetSize
      {
        UpdateSlotSpec(old(table[i]));
      }
    }

    /** Kernel_GetProcessCount: the number of processes created since Kernel_Init. */
    function GetProcessCount(): (n: int)
      reads this, table
      requires Valid()
      ensures 0 <= n <= MaxProcesses
    {
      processCount
    }

    /** Kernel_GetProcessTable, as a read-only view of the slots. */
    function GetProcessTable(): (view: seq<WorkingSet>)
      reads this, table
      requires Valid()
      ensures |view| == MaxProcesses && forall i :: 0 <= i < MaxProcesses ==> SlotValid(view[i])
    {
      table[..]
    }
  }
}
