/**
 * The earlier engine of WSClock/wsclock_kernel.c: the same access, fault and
 * periodic-scan skeleton as the clock-hand engine, but its victim is found by a
 * read-only two-pass search: the oldest resident page whose referenced bit is
 * clear, otherwise the oldest resident page.
 */
module WSClockOldest {
  import opened Optional
  import opened WSClockPages

  /** A page considered by a pass of the search: resident, and unreferenced in the first pass. */
  predicate Candidate(p: Page, unreferencedOnly: bool)
  {
    p.inWorkingSet && (!unreferencedOnly || !p.referenced)
  }

  /**
   * The victim a pass has chosen after its first `k` slots. A slot replaces the
   * current choice only when its age is strictly smaller, so the lowest index
   * wins among equal ages.
   */
  function Best(s: seq<Page>, unreferencedOnly: bool, k: nat): (r: Option<nat>)
    requires k <= |s|
    ensures r.Some? ==> r.value < k && Candidate(s[r.value], unreferencedOnly)
    ensures r.Some? ==> forall i :: 0 <= i < k && Candidate(s[i], unreferencedOnly) ==> s[r.value].age <= s[i].age
    ensures r.Some? ==> forall i :: 0 <= i < r.value && Candidate(s[i], unreferencedOnly) ==> s[r.value].age < s[i].age
    ensures r.None? <==> forall i :: 0 <= i < k ==> !Candidate(s[i], unreferencedOnly)
  {
    if k == 0 then None
    else
      var prev := Best(s, unreferencedOnly, k - 1);
      if Candidate(s[k - 1], unreferencedOnly) && (prev.None? || s[k - 1].age < s[prev.value].age)
      then Some(k - 1)
      else prev
  }

  /** Slot `v` holds the oldest candidate, and no earlier slot holds a candidate as old. */
  ghost predicate IsOldest(s: seq<Page>, v: nat, unreferencedOnly: bool)
  {
    && v < |s|
    && Candidate(s[v], unreferencedOnly)
    && (forall i :: 0 <= i < |s| && Candidate(s[i], unreferencedOnly) ==> s[v].age <= s[i].age)
    && (forall i :: 0 <= i < v && Candidate(s[i], unreferencedOnly) ==> s[v].age < s[i].age)
  }

  /** The description above picks at most one slot. */
  lemma IsOldestUnique(s: seq<Page>, v: nat, w: nat, unreferencedOnly: bool)
    requires IsOldest(s, v, unreferencedOnly) && IsOldest(s, w, unreferencedOnly)
    ensures v == w
  {
  }

  /**
   * The victim of find_victim_page: the oldest unreferenced resident page if
   * there is one, otherwise the oldest resident page, and none only when no page
   * is resident.
   */
  function OldestVictim(s: seq<Page>): (r: Option<nat>)
    ensures (exists i :: 0 <= i < |s| && Candidate(s[i], true)) ==> r.Some? && IsOldest(s, r.value, true)
    ensures (forall i :: 0 <= i < |s| ==> !Candidate(s[i], true)) && r.Some? ==> IsOldest(s, r.value, false)
    ensures r.None? <==> forall i :: 0 <= i < |s| ==> !s[i].inWorkingSet
    ensures r.Some? ==> r.value < |s| && s[r.value].inWorkingSet
  {
    var first := Best(s, true, |s|);
    if first.Some? then first else Best(s, false, |s|)
  }

  /**
   * find_victim_page: the two passes with a running minimum age. The initial
   * `ULONG_MAX` minimum stands for "no candidate yet" here.
   */
  method FindVictim(proc: Process) returns (victim: Option<nat>)
    ensures victim == OldestVictim(proc.pageTable[..])
  {
    var t := proc.pageTable;
    victim := None;
    var minAge := 0;
    for i := 0 to t.Length
      invariant victim == Best(t[..], true, i)
      invariant victim.Some? ==> minAge == t[victim.value].age
    {
      if !t[i].inWorkingSet {
        continue;
      }
      if !t[i].referenced && (victim.None? || t[i].age < minAge) {
        victim := Some(i);
        minAge := t[i].age;
      }
    }
    if victim.None? {
      for i := 0 to t.Length
        invariant victim == Best(t[..], false, i)
        invariant victim.Some? ==> minAge == t[victim.value].age
      {
        if !t[i].inWorkingSet {
          continue;
        }
        if victim.None? || t[i].age < minAge {
          victim := Some(i);
          minAge := t[i].age;
        }
      }
    }
  }

  /**
   * The new page table after an access to `page` has been accepted and the
   * clock has been raised to `clock`.
   */
  function Access(p: seq<Page>, clock: nat, workingSetSize: int, page: nat): (r: seq<Page>)
    requires page < |p|
    ensures |r| == |p|
    ensures r[page].inWorkingSet && r[page].referenced && r[page].age == clock && r[page].pageId == p[page].pageId
  {
    if p[page].inWorkingSet then p[page := Touch(p[page], clock)]
    else
      var victim := OldestVictim(p);
      var q := if ResidentCount(p) >= workingSetSize && victim.Some? then p[victim.value := Evict(p[victim.value])] else p;
      q[page := Insert(q[page], clock)]
  }

  /** A hit marks the page referenced and stamps it with the clock, and touches nothing else. */
  lemma AccessHit(p: seq<Page>, clock: nat, workingSetSize: int, page: nat)
    requires page < |p| && p[page].inWorkingSet
    ensures var r := Access(p, clock, workingSetSize, page);
      && |r| == |p|
      && r[page].referenced && r[page].age == clock
      && r[page].inWorkingSet && r[page].modified == p[page].modified && r[page].pageId == p[page].pageId
      && (forall i :: 0 <= i < |p| && i != page ==> r[i] == p[i])
      && ResidentCount(r) == ResidentCount(p)
  {
    ResidentCountUpdate(p, page, Touch(p[page], clock));
  }

  /**
   * A fault leaves the page resident, referenced, clean and stamped with the
   * clock. When the resident count has reached the working-set size and some
   * page is resident, exactly one page, the oldest victim, is evicted with all
   * its fields zeroed and the count is unchanged; otherwise the count grows by one.
   */
  lemma AccessFault(p: seq<Page>, clock: nat, workingSetSize: int, page: nat)
    requires page < |p| && !p[page].inWorkingSet
    ensures var r := Access(p, clock, workingSetSize, page);
      var full := ResidentCount(p) >= workingSetSize && ResidentCount(p) > 0;
      && |r| == |p|
      && r[page] == Insert(p[page], clock)
      && (full ==> ResidentCount(r) == ResidentCount(p))
      && (!full ==> ResidentCount(r) == ResidentCount(p) + 1)
      && (forall i :: 0 <= i < |p| && i != page && r[i] != p[i] ==>
            full && OldestVictim(p) == Some(i) && r[i] == Evict(p[i]))
      && (full ==> exists i :: 0 <= i < |p| && i != page && r[i] == Evict(p[i]) && p[i].inWorkingSet)
  {
    var victim := OldestVictim(p);
    ResidentCountZero(p);
    if ResidentCount(p) >= workingSetSize && victim.Some? {
      var v := victim.value;
      var q := p[v := Evict(p[v])];
      ResidentCountUpdate(p, v, Evict(p[v]));
      ResidentCountUpdate(q, page, Insert(q[page], clock));
    } else {
      ResidentCountUpdate(p, page, Insert(p[page], clock));
    }
  }

  /** With a working-set size of at least one, an access never takes the resident count above it. */
  lemma AccessKeepsBound(p: seq<Page>, clock: nat, workingSetSize: int, page: nat)
    requires page < |p| && workingSetSize >= 1 && ResidentCount(p) <= workingSetSize
    ensures ResidentCount(Access(p, clock, workingSetSize, page)) <= workingSetSize
  {
    if p[page].inWorkingSet {
      AccessHit(p, clock, workingSetSize, page);
    } else {
      AccessFault(p, clock, workingSetSize, page);
    }
  }

  /** An accepted access keeps every non-resident page zeroed. */
  lemma AccessKeepsZeroed(p: seq<Page>, clock: nat, workingSetSize: int, page: nat)
    requires page < |p| && OutPagesZeroed(p)
    ensures OutPagesZeroed(Access(p, clock, workingSetSize, page))
  {
    if p[page].inWorkingSet {
      AccessHit(p, clock, workingSetSize, page);
    } else {
      AccessFault(p, clock, workingSetSize, page);
    }
  }

  /**
   * WSClockEnvironment of WSClock: the process array handed in by the caller and
   * its count. The logging callback is not modelled.
   */
  class Environment {
    const processes: seq<Process>
    const processCount: int

    ghost predicate Valid()
    {
      processCount <= |processes|
    }

    /** The guards of wsclock_access_page: process index in range, process active, page index in range. */
    predicate Accepted(pi: int, page: int)
      requires Valid()
    {
      0 <= pi < processCount && processes[pi].active && 0 <= page < processes[pi].pageTable.Length
    }

    /** The objects an operation on process `pi` may change. */
    function Footprint(pi: int): set<object>
      requires Valid()
    {
      if 0 <= pi < processCount then {processes[pi], processes[pi].pageTable} else {}
    }

    /** wsclock_init. */
    constructor (processes: seq<Process>, processCount: int)
      requires processCount <= |processes|
      ensures Valid() && this.processes == processes && this.processCount == processCount
    {
      this.processes := processes;
      this.processCount := processCount;
    }

    /**
     * wsclock_access_page. A rejected access changes nothing; an accepted one
     * raises the process clock by one and then updates the page table as
     * Access describes.
     */
    method AccessPage(pi: int, page: int)
      requires Valid()
      modifies Footprint(pi)
      ensures !Accepted(pi, page) ==> unchanged(Footprint(pi))
      ensures Accepted(pi, page) ==>
        var proc := processes[pi];
        && proc.clock == old(proc.clock) + 1
        && proc.pageTable[..] == Access(old(proc.pageTable[..]), proc.clock, proc.workingSetSize, page)
    {
      if pi < 0 || pi >= processCount {
        return;
      }
      var proc := processes[pi];
      if !proc.active {
        return;
      }
      if page < 0 || page >= proc.pageTable.Length {
        return;
      }
      proc.clock := proc.clock + 1;
      var t := proc.pageTable;
      if t[page].inWorkingSet {
        t[page] := t[page].(referenced := true, age := proc.clock);
      } else {
        var countInWS := proc.CountResident();
        if countInWS >= proc.workingSetSize {
          var victim := FindVictim(proc);
          if victim.Some? {
            t[victim.value] := Evict(t[victim.value]);
          }
        }
        t[page] := Insert(t[page], proc.clock);
      }
    }

    /**
     * wsclock_periodic_scan: under the same process guards, clear the
     * referenced bit of every resident page and nothing else.
     */
    method PeriodicScan(pi: int)
      requires Valid()
      modifies if 0 <= pi < processCount then {processes[pi].pageTable} else {}
      ensures !(0 <= pi < processCount && processes[pi].active) ==> unchanged(Footprint(pi))
      ensures 0 <= pi < processCount && processes[pi].active ==>
        processes[pi].pageTable[..] == ClearAll(old(processes[pi].pageTable[..]))
    {
      if pi < 0 || pi >= processCount {
        return;
      }
      var proc := processes[pi];
      if !proc.active {
        return;
      }
      proc.ClearReferenced();
    }
  }
}
