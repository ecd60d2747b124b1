/**
 * The page and process records shared by both WSClock engines (struct Page and
 * struct Process of wsclock_kernel.h), the field updates the engines apply to a
 * page, and the two loops both engines run over a page table: counting the
 * resident pages and clearing the referenced bits.
 */
module WSClockPages {

  /**
   * One entry of a process's page table. The C fields `referenced`, `modified`
   * and `in_working_set` are ints that the engines only ever set to 0 or 1; they
   * are booleans here. `age` is the process clock at the last access.
   */
  datatype Page = Page(pageId: int, referenced: bool, modified: bool, age: nat, inWorkingSet: bool)

  function Resident(p: Page): nat
  {
    if p.inWorkingSet then 1 else 0
  }

  /** The number of pages of `s` that are in the working set. */
  function ResidentCount(s: seq<Page>): (n: nat)
    ensures n <= |s|
  {
    if |s| == 0 then 0 else ResidentCount(s[..|s| - 1]) + Resident(s[|s| - 1])
  }

  /** A hit: the page is marked referenced and stamped with the clock. */
  function Touch(p: Page, clock: nat): (r: Page)
    ensures r.referenced && r.age == clock
    ensures r.pageId == p.pageId && r.modified == p.modified && Resident(r) == Resident(p)
  {
    p.(referenced := true, age := clock)
  }

  /** A faulted-in page: resident, referenced, clean, stamped with the clock. */
  function Insert(p: Page, clock: nat): (r: Page)
    ensures Resident(r) == 1 && r.referenced && !r.modified && r.age == clock && r.pageId == p.pageId
  {
    p.(inWorkingSet := true, referenced := true, modified := false, age := clock)
  }

  /** An evicted page: every replacement field is zeroed. */
  function Evict(p: Page): (r: Page)
    ensures Resident(r) == 0 && !r.referenced && !r.modified && r.age == 0 && r.pageId == p.pageId
  {
    p.(inWorkingSet := false, referenced := false, age := 0, modified := false)
  }

  /** The effect of a reference-bit sweep on one page: only resident pages lose their bit. */
  function ClearRef(p: Page): Page
  {
    if p.inWorkingSet then p.(referenced := false) else p
  }

  /** The effect of wsclock_periodic_scan on a whole page table. */
  function ClearAll(s: seq<Page>): (r: seq<Page>)
    ensures |r| == |s|
    ensures forall i :: 0 <= i < |s| ==>
      && r[i].pageId == s[i].pageId
      && r[i].inWorkingSet == s[i].inWorkingSet
      && r[i].modified == s[i].modified
      && r[i].age == s[i].age
    ensures forall i :: 0 <= i < |s| && s[i].inWorkingSet ==> !r[i].referenced
    ensures forall i :: 0 <= i < |s| && !s[i].inWorkingSet ==> r[i] == s[i]
  {
    seq(|s|, i requires 0 <= i < |s| => ClearRef(s[i]))
  }

  /** A second sweep finds nothing left to clear. */
  lemma ClearAllIdempotent(s: seq<Page>)
    ensures ClearAll(ClearAll(s)) == ClearAll(s)
  {
  }

  /**
   * The invariant both engines keep on a page table: a page out of the working
   * set is unreferenced, clean and of age 0, as eviction leaves it.
   */
  ghost predicate OutPagesZeroed(p: seq<Page>)
  {
    forall i :: 0 <= i < |p| && !p[i].inWorkingSet ==> !p[i].referenced && !p[i].modified && p[i].age == 0
  }

  /** The reference-bit sweep only writes resident pages, so it keeps the invariant. */
  lemma ClearAllKeepsZeroed(s: seq<Page>)
    requires OutPagesZeroed(s)
    ensures OutPagesZeroed(ClearAll(s))
  {
  }

  /** Replacing one page changes the resident count by the difference of the two residencies. */
  lemma {:induction false} ResidentCountUpdate(s: seq<Page>, i: nat, x: Page)
    requires i < |s|
    ensures ResidentCount(s[i := x]) == ResidentCount(s) - Resident(s[i]) + Resident(x)
  {
    var t := s[i := x];
    if i == |s| - 1 {
      assert t[..|t| - 1] == s[..|s| - 1];
    } else {
      assert t[..|t| - 1] == s[..|s| - 1][i := x];
      ResidentCountUpdate(s[..|s| - 1], i, x);
    }
  }

  /** Two tables with the same residency at every index have the same resident count. */
  lemma {:induction false} ResidentCountSame(s: seq<Page>, t: seq<Page>)
    requires |s| == |t|
    requires forall i :: 0 <= i < |s| ==> s[i].inWorkingSet == t[i].inWorkingSet
    ensures ResidentCount(s) == ResidentCount(t)
  {
    if |s| > 0 {
      ResidentCountSame(s[..|s| - 1], t[..|t| - 1]);
    }
  }

  /** The resident count is zero exactly when no page is resident. */
  lemma {:induction false} ResidentCountZero(s: seq<Page>)
    ensures ResidentCount(s) == 0 <==> forall i :: 0 <= i < |s| ==> !s[i].inWorkingSet
  {
    if |s| > 0 {
      ResidentCountZero(s[..|s| - 1]);
      assert forall i :: 0 <= i < |s| - 1 ==> s[..|s| - 1][i] == s[i];
    }
  }

  /**
   * struct Process of wsclock_kernel.h. The page table pointer, its length
   * `page_count`, the identity, the working-set size and the active flag are set
   * by the caller before the engine sees the process and are never changed by
   * it; only the clock and the entries of the page table change.
   */
  class Process {
    const processId: int
    const pageTable: array<Page>
    const workingSetSize: int
    const active: bool
    var clock: nat

    constructor (processId: int, pageTable: array<Page>, workingSetSize: int, clock: nat, active: bool)
      ensures this.processId == processId && this.pageTable == pageTable
      ensures this.workingSetSize == workingSetSize && this.clock == clock && this.active == active
    {
      this.processId := processId;
      this.pageTable := pageTable;
      this.workingSetSize := workingSetSize;
      this.clock := clock;
      this.active := active;
    }

    /** The counting loop of the fault path: how many pages are in the working set. */
    method CountResident() returns (count: nat)
      ensures count == ResidentCount(pageTable[..])
    {
      count := 0;
      for i := 0 to pageTable.Length
        invariant count == ResidentCount(pageTable[..i])
      {
        assert pageTable[..i + 1][..i] == pageTable[..i];
        if pageTable[i].inWorkingSet {
          count := count + 1;
        }
      }
      assert pageTable[..pageTable.Length] == pageTable[..];
    }

    /** The loop of wsclock_periodic_scan: clear the referenced bit of every resident page. */
    method ClearReferenced()
      modifies pageTable
      ensures pageTable[..] == ClearAll(old(pageTable[..]))
    {
      for i := 0 to pageTable.Length
        invariant forall k :: 0 <= k < i ==> pageTable[k] == ClearRef(old(pageTable[k]))
        invariant forall k :: i <= k < pageTable.Length ==> pageTable[k] == old(pageTable[k])
      {
        if pageTable[i].inWorkingSet {
          pageTable[i] := pageTable[i].(referenced := false);
        }
      }
    }
  }
}
