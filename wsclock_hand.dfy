/**
 * The working-set clock engine of WSClock_1/wsclock_kernel.c: a circular
 * clock-hand victim scan with second chance, an age threshold and a limit on
 * dirty-page write-backs per scan. The hand is one cursor shared by every
 * process (a `static int` of the victim scan), so it lives in the environment.
 */
module WSClockHand {
  import opened Optional
  import opened WSClockPages

  /** At most this many dirty pages may be written back within one scan. */
  const MaxWritesPerScan: nat := 2

  /** A page is old enough to evict once `clock - age` reaches this gap. */
  const OldThreshold: nat := 5

  /** The range of `unsigned long`: arithmetic on it is modulo this. */
  const ULongModulus: nat := 0x1_0000_0000_0000_0000

  /**
   * `proc->clock - page->age >= 5` with the difference computed in unsigned
   * arithmetic: an age ahead of the clock by `d` wraps around to a gap of
   * `2^64 - d`.
   */
  predicate OldEnough(clock: nat, age: nat)
  {
    if age <= clock then clock - age >= OldThreshold else age - clock <= ULongModulus - OldThreshold
  }

  /** For values an `unsigned long` holds, OldEnough is the C test on the wrapped difference. */
  lemma OldEnoughUnsigned(clock: nat, age: nat)
    requires clock < ULongModulus && age < ULongModulus
    ensures OldEnough(clock, age) <==> (clock - age) % ULongModulus >= OldThreshold
  {
    if age > clock {
      assert (clock - age) % ULongModulus == ULongModulus - (age - clock);
    }
  }

  /** A page the scan evicts when the hand reaches it: resident, unreferenced and old. */
  predicate Eligible(clock: nat, p: Page)
  {
    p.inWorkingSet && !p.referenced && OldEnough(clock, p.age)
  }

  /** Where the scan starts: the shared hand, re-wrapped to 0 when it is past this table. */
  function Start(n: nat, hand: nat): (s: nat)
    ensures s < n || (n == 0 && s == 0)
    ensures hand < n ==> s == hand
    ensures hand >= n ==> s == 0
  {
    if hand >= n then 0 else hand
  }

  /** The page table, the hand and the chosen victim index (none for a null result) after a scan. */
  datatype ScanResult = ScanResult(pages: seq<Page>, hand: nat, victim: Option<nat>)

  /**
   * The scan loop of find_victim_page, one slot per unfolding: `scanCount` slots
   * examined so far, `writes` write-backs done in this scan.
   */
  function ScanLoop(pages: seq<Page>, clock: nat, hand: nat, scanCount: nat, writes: nat): (r: ScanResult)
    requires hand < |pages| || (|pages| == 0 && hand == 0)
    ensures |r.pages| == |pages|
    ensures r.hand < |pages| || (|pages| == 0 && r.hand == 0)
    ensures r.victim.Some? ==> r.victim.value == r.hand
    decreases |pages| - scanCount
  {
    if scanCount >= |pages| then ScanResult(pages, hand, None)
    else
      var p := pages[hand];
      var next := (hand + 1) % |pages|;
      if !p.inWorkingSet then ScanLoop(pages, clock, next, scanCount + 1, writes)
      else if p.referenced then ScanLoop(pages[hand := p.(referenced := false)], clock, next, scanCount + 1, writes)
      else if !OldEnough(clock, p.age) then ScanLoop(pages, clock, next, scanCount + 1, writes)
      else if !p.modified then ScanResult(pages, hand, Some(hand))
      else if writes < MaxWritesPerScan then ScanResult(pages[hand := p.(modified := false)], hand, Some(hand))
      else ScanLoop(pages, clock, next, scanCount + 1, writes)
  }

  /** find_victim_page: a whole scan from the shared hand, with the write-back count starting at 0. */
  function Scan(pages: seq<Page>, clock: nat, hand: nat): (r: ScanResult)
    ensures |r.pages| == |pages|
    ensures r.hand < |pages| || (|pages| == 0 && r.hand == 0)
    ensures r.victim.Some? ==> r.victim.value == r.hand
  {
    ScanLoop(pages, clock, Start(|pages|, hand), 0, 0)
  }

  // ---------------------------------------------------------------------------
  // An independent description of a scan: the first eligible page in circular
  // order from the start, with every slot the hand passed swept of its bit.
  // ---------------------------------------------------------------------------

  /** The slot the hand examines at step `k` of a scan starting at `s`. */
  function At(s: nat, k: nat, n: nat): (i: nat)
    requires s < n && k <= n
    ensures i < n
  {
    if s + k < n then s + k else s + k - n
  }

  /** The step at which a scan starting at `s` examines slot `i`: the inverse of At. */
  function Step(s: nat, i: nat, n: nat): (k: nat)
    requires s < n && i < n
    ensures k < n && At(s, k, n) == i
  {
    if i >= s then i - s else i + n - s
  }

  lemma StepAt(s: nat, k: nat, n: nat)
    requires s < n && k < n
    ensures Step(s, At(s, k, n), n) == k
  {
  }

  /** The hand moves `(hand + 1) % n`, which is the next step of the circular order. */
  lemma NextAt(s: nat, k: nat, n: nat)
    requires s < n && k < n
    ensures (At(s, k, n) + 1) % n == At(s, k + 1, n)
  {
    var i := At(s, k, n);
    if i + 1 < n {
      assert (i + 1) % n == i + 1;
    } else {
      assert i + 1 == n;
    }
  }

  /** The table after the hand has passed the first `m` steps: those slots lose their referenced bit. */
  function Swept(p: seq<Page>, s: nat, m: nat): (q: seq<Page>)
    requires s < |p|
    ensures |q| == |p|
  {
    seq(|p|, i requires 0 <= i < |p| => if Step(s, i, |p|) < m then ClearRef(p[i]) else p[i])
  }

  /** The first step at or after `k` whose slot is eligible, if any. */
  function FirstEligible(p: seq<Page>, clock: nat, s: nat, k: nat): (r: Option<nat>)
    requires s < |p| && k <= |p|
    ensures r.Some? ==> k <= r.value < |p| && Eligible(clock, p[At(s, r.value, |p|)])
    ensures r.Some? ==> forall j :: k <= j < r.value ==> !Eligible(clock, p[At(s, j, |p|)])
    ensures r.None? ==> forall j :: k <= j < |p| ==> !Eligible(clock, p[At(s, j, |p|)])
    decreases |p| - k
  {
    if k == |p| then None
    else if Eligible(clock, p[At(s, k, |p|)]) then Some(k)
    else FirstEligible(p, clock, s, k + 1)
  }

  /** The outcome the description predicts for the step found by FirstEligible. */
  function Expected(p: seq<Page>, s: nat, first: Option<nat>): ScanResult
    requires s < |p|
    requires first.Some? ==> first.value < |p|
  {
    match first
    case None => ScanResult(Swept(p, s, |p|), s, None)
    case Some(k) =>
      var v := At(s, k, |p|);
      ScanResult(Swept(p, s, k)[v := p[v].(modified := false)], v, Some(v))
  }

  lemma SweptNext(p: seq<Page>, s: nat, k: nat)
    requires s < |p| && k < |p|
    ensures Swept(p, s, k + 1) == Swept(p, s, k)[At(s, k, |p|) := ClearRef(p[At(s, k, |p|)])]
  {
    var i := At(s, k, |p|);
    StepAt(s, k, |p|);
    var after, before := Swept(p, s, k + 1), Swept(p, s, k)[i := ClearRef(p[i])];
    forall j | 0 <= j < |p|
      ensures after[j] == before[j]
    {
      if Step(s, j, |p|) == k {
        assert j == i;
      }
    }
  }

  /** The scan loop, started at any step with the slots before it swept, agrees with the description. */
  lemma {:induction false} ScanLoopFrom(p: seq<Page>, clock: nat, s: nat, k: nat, writes: nat)
    requires s < |p| && k <= |p| && writes < MaxWritesPerScan
    ensures ScanLoop(Swept(p, s, k), clock, At(s, k, |p|), k, writes) == Expected(p, s, FirstEligible(p, clock, s, k))
    decreases |p| - k
  {
    var n := |p|;
    if k < n {
      var i := At(s, k, n);
      var q := Swept(p, s, k);
      StepAt(s, k, n);
      assert q[i] == p[i];
      NextAt(s, k, n);
      SweptNext(p, s, k);
      if !p[i].inWorkingSet || (!p[i].referenced && !OldEnough(clock, p[i].age)) {
        assert ClearRef(p[i]) == p[i];
        assert Swept(p, s, k + 1) == q;
        ScanLoopFrom(p, clock, s, k + 1, writes);
      } else if p[i].referenced {
        ScanLoopFrom(p, clock, s, k + 1, writes);
      } else if !p[i].modified {
        assert q[i := p[i].(modified := false)] == q;
      }
    }
  }

  /**
   * What a scan does, all at once: starting from the re-wrapped hand it evicts
   * the first eligible page in circular order, dirty or clean (the write-back
   * quota never blocks, since the scan returns right after its only write-back),
   * leaving the hand on it; every slot passed before it loses its referenced bit.
   * With no eligible page the hand sweeps the whole table and ends where it began.
   */
  lemma ScanCharacterised(p: seq<Page>, clock: nat, hand: nat)
    requires |p| > 0
    ensures Scan(p, clock, hand) == Expected(p, Start(|p|, hand), FirstEligible(p, clock, Start(|p|, hand), 0))
  {
    var s := Start(|p|, hand);
    assert Swept(p, s, 0) == p;
    ScanLoopFrom(p, clock, s, 0, 0);
  }

  /** An empty table: no victim, and the hand is re-wrapped to 0. */
  lemma ScanEmpty(p: seq<Page>, clock: nat, hand: nat)
    requires |p| == 0
    ensures Scan(p, clock, hand) == ScanResult(p, 0, None)
  {
  }

  /**
   * The victim and the cursor. A victim is resident, was unreferenced when the
   * scan began and is old enough, and the hand is left on it; in particular a
   * page whose referenced bit was set is never returned (second chance). No
   * victim is found exactly when no page is eligible, and then the hand is back
   * at the re-wrapped start.
   */
  lemma ScanVictim(p: seq<Page>, clock: nat, hand: nat)
    requires |p| > 0
    ensures var r := Scan(p, clock, hand);
      && r.hand < |p|
      && (r.victim.Some? ==> r.victim.value == r.hand && Eligible(clock, p[r.hand]))
      && (forall i :: 0 <= i < |p| && p[i].referenced ==> r.victim != Some(i))
      && (r.victim.None? <==> forall i :: 0 <= i < |p| ==> !Eligible(clock, p[i]))
      && (r.victim.None? ==> r.hand == Start(|p|, hand))
  {
    var s := Start(|p|, hand);
    ScanCharacterised(p, clock, hand);
    var first := FirstEligible(p, clock, s, 0);
    if first.None? {
      forall i | 0 <= i < |p| ensures !Eligible(clock, p[i]) {
        assert At(s, Step(s, i, |p|), |p|) == i;
      }
    }
  }

  /**
   * What a scan writes. It never changes residency, age or identity of a page
   * and never sets a referenced bit. A full sweep clears the bit of every
   * resident page; a scan that stops at a victim clears it on the slots passed
   * before the victim and leaves the slots after it as they were. At most one
   * page has its dirty bit cleared, the victim (its write-back).
   */
  lemma ScanFootprint(p: seq<Page>, clock: nat, hand: nat)
    requires |p| > 0
    ensures var r := Scan(p, clock, hand);
      var s := Start(|p|, hand);
      && |r.pages| == |p|
      && (forall i :: 0 <= i < |p| ==>
            && r.pages[i].inWorkingSet == p[i].inWorkingSet
            && r.pages[i].age == p[i].age
            && r.pages[i].pageId == p[i].pageId
            && (r.pages[i].referenced ==> p[i].referenced))
      && (forall i :: 0 <= i < |p| && r.pages[i].modified != p[i].modified ==> r.victim == Some(i) && !r.pages[i].modified)
      && (r.victim.None? ==> forall i :: 0 <= i < |p| ==> r.pages[i] == ClearRef(p[i]))
      && (r.victim.Some? ==> forall i :: 0 <= i < |p| && Step(s, i, |p|) < Step(s, r.hand, |p|) ==> r.pages[i] == ClearRef(p[i]))
      && (r.victim.Some? ==> forall i :: 0 <= i < |p| && Step(s, i, |p|) > Step(s, r.hand, |p|) ==> r.pages[i] == p[i])
  {
    var s := Start(|p|, hand);
    ScanCharacterised(p, clock, hand);
    var first := FirstEligible(p, clock, s, 0);
    if first.Some? {
      StepAt(s, first.value, |p|);
    }
  }

  // ---------------------------------------------------------------------------
  // The accepted part of wsclock_access_page, after the clock tick.
  // ---------------------------------------------------------------------------

  datatype AccessResult = AccessResult(pages: seq<Page>, hand: nat)

  /**
   * The new page table and hand after an access to `page` has been accepted and
   * the clock has been raised to `clock`.
   */
  function Access(p: seq<Page>, clock: nat, hand: nat, workingSetSize: int, page: nat): (r: AccessResult)
    requires page < |p|
    ensures |r.pages| == |p|
    ensures r.pages[page].inWorkingSet && r.pages[page].referenced && r.pages[page].age == clock
    ensures r.pages[page].pageId == p[page].pageId
  {
    if p[page].inWorkingSet then AccessResult(p[page := Touch(p[page], clock)], hand)
    else if ResidentCount(p) >= workingSetSize then
      ScanFootprint(p, clock, hand);
      var s := Scan(p, clock, hand);
      var q := if s.victim.Some? then s.pages[s.victim.value := Evict(s.pages[s.victim.value])] else s.pages;
      AccessResult(q[page := Insert(q[page], clock)], s.hand)
    else AccessResult(p[page := Insert(p[page], clock)], hand)
  }

  /**
   * A hit marks the page referenced and stamps it with the clock; residency,
   * dirty bit, every other page and the hand are left alone.
   */
  lemma AccessHit(p: seq<Page>, clock: nat, hand: nat, workingSetSize: int, page: nat)
    requires page < |p| && p[page].inWorkingSet
    ensures var r := Access(p, clock, hand, workingSetSize, page);
      && |r.pages| == |p| && r.hand == hand
      && r.pages[page].referenced && r.pages[page].age == clock
      && r.pages[page].inWorkingSet && r.pages[page].modified == p[page].modified
      && r.pages[page].pageId == p[page].pageId
      && (forall i :: 0 <= i < |p| && i != page ==> r.pages[i] == p[i])
      && ResidentCount(r.pages) == ResidentCount(p)
  {
    ResidentCountUpdate(p, page, Touch(p[page], clock));
  }

  /**
   * A fault leaves the page resident, referenced, clean and stamped with the
   * clock. Eviction is tried only when the resident count has reached the
   * working-set size: then every other page is as the scan left it, except the
   * victim, a different page that was resident, which has all its replacement
   * fields zeroed, and the count is unchanged. Otherwise the count grows by
   * one; without a scan no other page changes and the hand does not move.
   */
  lemma AccessFault(p: seq<Page>, clock: nat, hand: nat, workingSetSize: int, page: nat)
    requires page < |p| && !p[page].inWorkingSet
    ensures var r := Access(p, clock, hand, workingSetSize, page);
      var sc := Scan(p, clock, hand);
      var evicted := ResidentCount(p) >= workingSetSize && sc.victim.Some?;
      && |r.pages| == |p|
      && r.pages[page] == Insert(p[page], clock)
      && (evicted ==> ResidentCount(r.pages) == ResidentCount(p))
      && (!evicted ==> ResidentCount(r.pages) == ResidentCount(p) + 1)
      && (evicted ==> sc.victim.value != page && p[sc.victim.value].inWorkingSet)
      && (ResidentCount(p) >= workingSetSize ==>
            forall i :: 0 <= i < |p| && i != page ==>
              r.pages[i] == (if sc.victim == Some(i) then Evict(p[i]) else sc.pages[i]))
      && (ResidentCount(p) >= workingSetSize ==> r.hand == sc.hand)
      && (ResidentCount(p) < workingSetSize ==> forall i :: 0 <= i < |p| && i != page ==> r.pages[i] == p[i])
      && (ResidentCount(p) < workingSetSize ==> r.hand == hand)
  {
    if ResidentCount(p) >= workingSetSize {
      var s := Scan(p, clock, hand);
      ScanVictim(p, clock, hand);
      ScanFootprint(p, clock, hand);
      ResidentCountSame(p, s.pages);
      assert s.pages[page] == p[page];
      if s.victim.Some? {
        var v := s.victim.value;
        var q := s.pages[v := Evict(s.pages[v])];
        ResidentCountUpdate(s.pages, v, Evict(s.pages[v]));
        ResidentCountUpdate(q, page, Insert(q[page], clock));
      } else {
        ResidentCountUpdate(s.pages, page, Insert(s.pages[page], clock));
      }
    } else {
      ResidentCountUpdate(p, page, Insert(p[page], clock));
    }
  }

  /** An accepted access keeps every non-resident page zeroed. */
  lemma AccessKeepsZeroed(p: seq<Page>, clock: nat, hand: nat, workingSetSize: int, page: nat)
    requires page < |p| && OutPagesZeroed(p)
    ensures OutPagesZeroed(Access(p, clock, hand, workingSetSize, page).pages)
  {
    if p[page].inWorkingSet {
      AccessHit(p, clock, hand, workingSetSize, page);
    } else {
      AccessFault(p, clock, hand, workingSetSize, page);
      if ResidentCount(p) >= workingSetSize {
        ScanFootprint(p, clock, hand);
      }
    }
  }

  /**
   * WSClockEnvironment of WSClock_1: the process array handed in by the caller,
   * its count, and the single clock hand every scan shares. The logging
   * callback is not modelled.
   */
  class Environment {
    const processes: seq<Process>
    const processCount: int
    var clockHand: nat

    ghost predicate Valid()
    {
      processCount <= |processes|
    }

    /** The guards of wsclock_access_page: process index in range, process active, page index in range. */
    predicate Accepted(pi: int, page: int)
      requires Valid()
    {
      0 <= pi < processCount && processes[pi].active && 0 <= page < processes[pi].pageTable.Length
    }

    /** The objects an operation on process `pi` may change. */
    function Footprint(pi: int): set<object>
      requires Valid()
    {
      if 0 <= pi < processCount then {processes[pi], processes[pi].pageTable} else {}
    }

    /**
     * wsclock_init. It stores the processes and their count and leaves the hand
     * alone: the hand is a function-level static, 0 at program start and kept
     * across environments, so its current value `hand` is passed in.
     */
    constructor (processes: seq<Process>, processCount: int, hand: nat)
      requires processCount <= |processes|
      ensures Valid() && this.processes == processes && this.processCount == processCount
      ensures clockHand == hand
    {
      this.processes := processes;
      this.processCount := processCount;
      clockHand := hand;
    }

    /** find_victim_page: the clock-hand scan over the page table of `proc`. */
    method FindVictim(proc: Process) returns (victim: Option<nat>)
      modifies this`clockHand, proc.pageTable
      ensures var r := Scan(old(proc.pageTable[..]), proc.clock, old(clockHand));
        proc.pageTable[..] == r.pages && clockHand == r.hand && victim == r.victim
    {
      var t := proc.pageTable;
      var scanCount := 0;
      var writesThisRound := 0;
      var totalPages := t.Length;
      if clockHand >= totalPages {
        clockHand := 0;
      }
      while scanCount < totalPages
        invariant 0 <= scanCount <= totalPages
        invariant clockHand < totalPages || (totalPages == 0 && clockHand == 0)
        invariant ScanLoop(t[..], proc.clock, clockHand, scanCount, writesThisRound)
               == Scan(old(t[..]), proc.clock, old(clockHand))
        decreases totalPages - scanCount
      {
        var current := t[clockHand];
        if current.inWorkingSet {
          if current.referenced {
            t[clockHand] := current.(referenced := false);
            clockHand := (clockHand + 1) % totalPages;
            scanCount := scanCount + 1;
            continue;
          } else if OldEnough(proc.clock, current.age) {
            if !current.modified {
              return Some(clockHand);
            } else if writesThisRound < MaxWritesPerScan {
              writesThisRound := writesThisRound + 1;
              t[clockHand] := current.(modified := false);
              return Some(clockHand);
            } else {
              // The quota-exhausted skip: writesThisRound is still 0 here, since
              // the only write-back is followed by a return, so this is dead code.
              assert false;
            }
          } else {
            clockHand := (clockHand + 1) % totalPages;
            scanCount := scanCount + 1;
            continue;
          }
        } else {
          clockHand := (clockHand + 1) % totalPages;
          scanCount := scanCount + 1;
          continue;
        }
      }
      return None;
    }

    /**
     * wsclock_access_page. A rejected access changes nothing at all; an
     * accepted one raises the process clock by one and then updates the page
     * table and the shared hand as Access describes.
     */
    method AccessPage(pi: int, page: int)
      requires Valid()
      modifies this`clockHand, Footprint(pi)
      ensures !Accepted(pi, page) ==> clockHand == old(clockHand) && unchanged(Footprint(pi))
      ensures Accepted(pi, page) ==>
        var proc := processes[pi];
        var r := Access(old(proc.pageTable[..]), old(proc.clock) + 1, old(clockHand), proc.workingSetSize, page);
        && proc.clock == old(proc.clock) + 1
        && proc.pageTable[..] == r.pages
        && clockHand == r.hand
    {
      if pi < 0 || pi >= processCount {
        return;
      }
      var proc := processes[pi];
      if !proc.active {
        return;
      }
      if page < 0 || page >= proc.pageTable.Length {
        return;
      }
      proc.clock := proc.clock + 1;
      var t := proc.pageTable;
      if t[page].inWorkingSet {
        t[page] := t[page].(referenced := true, age := proc.clock);
      } else {
        var inWS := proc.CountResident();
        if inWS >= proc.workingSetSize {
          var victim := FindVictim(proc);
          if victim.Some? {
            t[victim.value] := Evict(t[victim.value]);
          }
        }
        t[page] := Insert(t[page], proc.clock);
      }
    }

    /**
     * wsclock_periodic_scan: under the same process guards, clear the
     * referenced bit of every resident page and nothing else.
     */
    method PeriodicScan(pi: int)
      requires Valid()
      modifies if 0 <= pi < processCount then {processes[pi].pageTable} else {}
      ensures !(0 <= pi < processCount && processes[pi].active) ==> unchanged(Footprint(pi))
      ensures 0 <= pi < processCount && processes[pi].active ==>
        processes[pi].pageTable[..] == ClearAll(old(processes[pi].pageTable[..]))
    {
      if pi < 0 || pi >= processCount {
        return;
      }
      var proc := processes[pi];
      if !proc.active {
        return;
      }
      proc.ClearReferenced();
    }
  }
}
