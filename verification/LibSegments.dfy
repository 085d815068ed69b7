/**
 The segments of a shared library entering the mappings of a core dump, on values: which entry a
 lookup in an incomplete array finds, what a segment does to it, and what reads then deliver.
 */
module LibSegments {
  import opened Common
  import opened CoreImage

  // ----- Searching an array that is too short -----

  /**
   The last position below n that a search over count positions probes as long as it moves to
   the right, from lo on.
   */
  function LastProbe(lo: nat, n: nat, count: nat): (p: nat)
    requires lo < n
    ensures lo <= p < n
    decreases n - lo
  {
    var mid := (lo + count - 1) / 2;
    if count - 1 - lo > 1 && mid < n then LastProbe(mid, n, count) else lo
  }

  /** The search for addr leaves the array. */
  predicate Leaves(core: seq<Mapping>, count: nat, addr: int) {
    || count == 0 || core == []
    || (count > |core| && var p := LastProbe(0, |core|, count); p == 0 || core[p].vaddr <= addr)
  }

  // ----- What a segment does -----

  /** A program header, as far as it is looked at. */
  datatype Segment = Segment(load: bool, writable: bool, offset: nat, vaddr: nat, filesz: nat, memsz: nat)

  /** The segments that matter: loaded, read-only, and present in the file. */
  predicate Wanted(s: Segment) { s.load && !s.writable && s.filesz != 0 }

  function Target(s: Segment, base: nat): nat { s.vaddr + base }

  /** The entry for a segment whose address is not mapped yet. */
  function Added(s: Segment, fd: int, base: nat): Mapping {
    Mapping(fd, s.offset, Target(s, base), s.memsz)
  }

  /** An entry taken over by a segment: file, offset and size are the segment's, the address stays. */
  function Takeover(m: Mapping, s: Segment, fd: int, page: nat): Mapping
    requires page > 0
  {
    Mapping(fd, s.offset, m.vaddr, RoundUp(s.memsz, page))
  }

  /** An entry that a segment may not take over: another file's, of another size, and not one page. */
  predicate InTheWay(m: Mapping, s: Segment, fd: int, page: nat)
    requires page > 0
  {
    m.memsz != page && m.fd != fd && RoundUp(m.memsz, page) != RoundUp(s.memsz, page)
  }

  /** A number of pages that is enough for one size and not for the other. */
  ghost predicate PagesBetween(x: nat, y: nat, page: nat) {
    exists k: nat :: PagesTell(x, y, page, k)
  }

  ghost predicate PagesTell(x: nat, y: nat, page: nat, k: nat) { (x <= k * page) != (y <= k * page) }

  lemma Scaled(p: int, q: int, page: nat)
    requires p <= q
    ensures p * page <= q * page
  {
  }

  /** Pages enough are pages enough for the rounded size. */
  lemma RoundedFits(x: nat, page: nat, k: nat)
    requires page > 0
    ensures x <= k * page <==> RoundUp(x, page) <= k * page
  {
    var q := (x + page - 1) / page;
    RoundUpIsMultiple(x, page);
    assert RoundUp(x, page) == q * page;
    if x <= k * page && q > k {
      Scaled(k + 1, q, page);
    }
    if q <= k {
      Scaled(q, k, page);
    }
  }

  lemma FewerPages(x: nat, y: nat, page: nat)
    requires page > 0 && RoundUp(x, page) < RoundUp(y, page)
    ensures PagesTell(x, y, page, (x + page - 1) / page)
  {
    var k := (x + page - 1) / page;
    assert RoundUp(x, page) == k * page;
    hide RoundUp;
    RoundedFits(x, page, k);
    RoundedFits(y, page, k);
  }

  /** An entry is in the way exactly if it is another file's, not one page, and the segment needs more or fewer pages. */
  lemma InTheWayMeans(m: Mapping, s: Segment, fd: int, page: nat)
    requires page > 0
    ensures InTheWay(m, s, fd, page) <==> m.fd != fd && m.memsz != page && PagesBetween(m.memsz, s.memsz, page)
  {
    hide RoundUp;
    if RoundUp(m.memsz, page) < RoundUp(s.memsz, page) {
      FewerPages(m.memsz, s.memsz, page);
    } else if RoundUp(s.memsz, page) < RoundUp(m.memsz, page) {
      FewerPages(s.memsz, m.memsz, page);
      assert PagesTell(m.memsz, s.memsz, page, (s.memsz + page - 1) / page);
    } else if k: nat :| PagesTell(m.memsz, s.memsz, page, k) {
      RoundedFits(m.memsz, page, k);
      RoundedFits(s.memsz, page, k);
    }
  }

  /** The entries added since the last sort, newest first, the number of all entries, and what lookups see. */
  datatype Index = Index(newest: seq<Mapping>, count: nat, view: View)

  /** Exactly one entry, of value m, has become m'. */
  ghost predicate Replaced(v: View, v': View, m: Mapping, m': Mapping) {
    && v'.files == v.files && v'.page == v.page
    && ((v'.share == v.share && exists k :: 0 <= k < |v.core| && v.core[k] == m && v'.core == v.core[k := m'])
        || (v'.core == v.core && exists k :: 0 <= k < |v.share| && v.share[k] == m && v'.share == v.share[k := m']))
  }

  lemma ReplacedAt(v: View, v': View, all: seq<Mapping>, k: nat, m': Mapping)
    requires v'.files == v.files && v'.page == v.page && |v'.core| == |v.core|
    requires all == v.core + v.share && k < |all| && v'.core + v'.share == all[k := m']
    ensures Replaced(v, v', all[k], m')
  {
    var c, after := |v.core|, all[k := m'];
    assert v'.core == after[..c] && v'.share == after[c..] && v.core == all[..c] && v.share == all[c..];
    if k < c {
      assert v'.core == v.core[k := m'] && v'.share == v.share;
    } else {
      assert v'.share == v.share[k - c := m'] && v'.core == v.core;
    }
  }

  /** One segment dealt with: nothing for it to do, an entry added, or the entry found taken over. */
  ghost predicate SegmentStep(x: Index, x': Index, s: Segment, fd: int, base: nat)
    requires x.view.page > 0
  {
    if !Wanted(s) then x' == x
    else
      && !Leaves(x.view.core, x.count, Target(s, base))
      && match Lookup(x.view, Target(s, base))
         case None => x' == x.(newest := [Added(s, fd, base)] + x.newest, count := x.count + 1)
         case Some(m) =>
           && !InTheWay(m, s, fd, x.view.page) && x'.newest == x.newest && x'.count == x.count
           && Replaced(x.view, x'.view, m, Takeover(m, s, fd, x.view.page))
  }

  datatype LibResult = LibOk | Conflict | LibOutside

  /** One segment refused: the entry its address is in belongs to something else. */
  ghost predicate Blocked(x: Index, s: Segment, fd: int, base: nat)
    requires x.view.page > 0
  {
    && Wanted(s) && !Leaves(x.view.core, x.count, Target(s, base))
    && Lookup(x.view, Target(s, base)).Some?
    && InTheWay(Lookup(x.view, Target(s, base)).value, s, fd, x.view.page)
  }

  /** The states that dealing with the first segments goes through. */
  ghost predicate SegmentRun(xs: seq<Index>, segments: seq<Segment>, fd: int, base: nat) {
    && 0 < |xs| <= |segments| + 1
    && (forall i :: 0 <= i < |xs| ==> xs[i].view.page > 0)
    && (forall i :: 0 <= i < |xs| - 1 ==> SegmentStep(xs[i], xs[i + 1], segments[i], fd, base))
  }

  /** The segment after these states is blocked. */
  ghost predicate BlockedAfter(xs: seq<Index>, segments: seq<Segment>, fd: int, base: nat) {
    0 < |xs| <= |segments| && xs[|xs| - 1].view.page > 0 && Blocked(xs[|xs| - 1], segments[|xs| - 1], fd, base)
  }

  /** The search for the segment after these states leaves the array. */
  ghost predicate LeavesAfter(xs: seq<Index>, segments: seq<Segment>, base: nat) {
    && 0 < |xs| <= |segments|
    && var x, s := xs[|xs| - 1], segments[|xs| - 1];
       Wanted(s) && Leaves(x.view.core, x.count, Target(s, base))
  }

  lemma StepAdds(x: Index, s: Segment, fd: int, base: nat)
    requires x.view.page > 0 && Wanted(s) && !Leaves(x.view.core, x.count, Target(s, base))
    requires Lookup(x.view, Target(s, base)).None?
    ensures SegmentStep(x, x.(newest := [Added(s, fd, base)] + x.newest, count := x.count + 1), s, fd, base)
  {
  }

  lemma StepTakesOver(x: Index, x': Index, m: Mapping, s: Segment, fd: int, base: nat)
    requires x.view.page > 0 && Wanted(s) && !Leaves(x.view.core, x.count, Target(s, base))
    requires Lookup(x.view, Target(s, base)) == Some(m) && !InTheWay(m, s, fd, x.view.page)
    requires x'.newest == x.newest && x'.count == x.count
    requires Replaced(x.view, x'.view, m, Takeover(m, s, fd, x.view.page))
    ensures SegmentStep(x, x', s, fd, base)
  {
  }

  lemma IsBlocked(x: Index, m: Mapping, s: Segment, fd: int, base: nat)
    requires x.view.page > 0 && Wanted(s) && !Leaves(x.view.core, x.count, Target(s, base))
    requires Lookup(x.view, Target(s, base)) == Some(m) && InTheWay(m, s, fd, x.view.page)
    ensures Blocked(x, s, fd, base)
  {
  }

  lemma SkippedStep(x: Index, s: Segment, fd: int, base: nat)
    requires x.view.page > 0 && !Wanted(s)
    ensures SegmentStep(x, x, s, fd, base)
  {
  }

  lemma RunStarts(x: Index, segments: seq<Segment>, fd: int, base: nat)
    requires x.view.page > 0
    ensures SegmentRun([x], segments, fd, base)
  {
  }

  lemma RunPages(xs: seq<Index>, segments: seq<Segment>, fd: int, base: nat)
    requires SegmentRun(xs, segments, fd, base)
    ensures forall k :: 0 <= k < |xs| ==> xs[k].view.page > 0
  {
  }

  lemma RunFurther(xs: seq<Index>, x: Index, segments: seq<Segment>, fd: int, base: nat)
    requires SegmentRun(xs, segments, fd, base) && |xs| <= |segments| && x.view.page > 0
    requires SegmentStep(xs[|xs| - 1], x, segments[|xs| - 1], fd, base)
    ensures SegmentRun(xs + [x], segments, fd, base)
  {
    hide SegmentStep;
  }

  /** What one segment does, entry by entry. */
  lemma StepMeans(x: Index, x': Index, s: Segment, fd: int, base: nat)
    requires x.view.page > 0 && SegmentStep(x, x', s, fd, base)
    ensures !s.load || s.writable || s.filesz == 0 ==> x' == x
    ensures s.load && !s.writable && s.filesz != 0 ==>
              match Lookup(x.view, s.vaddr + base)
              case None =>
                && x'.view == x.view && x'.count == x.count + 1
                && x'.newest == [Mapping(fd, s.offset, s.vaddr + base, s.memsz)] + x.newest
              case Some(m) =>
                && x'.newest == x.newest && x'.count == x.count
                && Replaced(x.view, x'.view, m, Mapping(fd, s.offset, m.vaddr, RoundUp(s.memsz, x.view.page)))
  {
    hide Lookup, Leaves, InTheWay, Replaced, RoundUp;
  }

  /** Addresses never change, whatever takes entries over. */
  lemma AddressesStay(v: View, v': View, m: Mapping, m': Mapping)
    requires Replaced(v, v', m, m') && m'.vaddr == m.vaddr
    ensures |v'.core| == |v.core| && |v'.share| == |v.share|
    ensures forall k :: 0 <= k < |v.core| ==> v'.core[k].vaddr == v.core[k].vaddr
    ensures forall k :: 0 <= k < |v.share| ==> v'.share[k].vaddr == v.share[k].vaddr
  {
  }

  // ----- What is covered -----

  /** An entry taken over covers the segment's address unless it was the file's own, and shrinks below it. */
  lemma TakeoverCovers(m: Mapping, s: Segment, fd: int, base: nat, page: nat)
    requires page > 0 && m.Covers(Target(s, base)) && !InTheWay(m, s, fd, page) && s.memsz > 0
    ensures Takeover(m, s, fd, page).Covers(Target(s, base)) <==>
            m.fd != fd || Target(s, base) - m.vaddr < RoundUp(s.memsz, page)
    ensures m.fd != fd ==> m.memsz <= Takeover(m, s, fd, page).memsz
  {
    if m.memsz == page {
      AtLeastOnePage(s.memsz, page);
    }
  }

  lemma AtLeastOnePage(n: nat, page: nat)
    requires n > 0 && page > 0
    ensures RoundUp(n, page) >= page
  {
    var q := (n + page - 1) / page;
    assert q >= 1;
    assert q * page >= page;
  }

  /** The entry that a segment makes when what lookups see is v: the one its address is in, or a new one. */
  function EntryFor(v: View, s: Segment, fd: int, base: nat): Mapping
    requires v.page > 0
  {
    match Lookup(v, Target(s, base))
    case None => Added(s, fd, base)
    case Some(m) => Takeover(m, s, fd, v.page)
  }

  ghost predicate Listed(x: Index, m: Mapping) { m in x.newest || Mapped(x.view, m) }

  /**
   No segment makes an entry that covers the address of a later one. Entries that are added do
   not matter, since lookups do not see them before the next sort.
   */
  ghost predicate Clear(v: View, segments: seq<Segment>, base: nat)
    requires v.page > 0
  {
    && (forall i :: 0 <= i < |segments| && Wanted(segments[i]) ==> segments[i].memsz > 0)
    && (forall i, j :: 0 <= i < j < |segments| && Wanted(segments[i]) && Wanted(segments[j]) ==>
          Lookup(v, Target(segments[i], base)).Some? ==>
          !EntryFor(v, segments[i], 0, base).Covers(Target(segments[j], base)))
  }

  function PageStart(a: nat, page: nat): nat
    requires page > 0
  {
    a / page * page
  }

  lemma AlignedBelow(x: nat, a: nat, page: nat)
    requires page > 0 && x % page == 0 && x <= a
    ensures x <= PageStart(a, page)
  {
    var p, q := x / page, a / page;
    assert x == p * page && a == q * page + a % page;
    if p > q {
      Scaled(q + 1, p, page);
      assert false;
    }
    Scaled(p, q, page);
  }

  /**
   Among entries that start on a page it is enough that each segment starts past the pages that an
   earlier one takes, counted from the page it starts in.
   */
  lemma PagesApart(v: View, segments: seq<Segment>, base: nat)
    requires v.page > 0 && forall m :: Mapped(v, m) ==> m.vaddr % v.page == 0
    requires forall i :: 0 <= i < |segments| && Wanted(segments[i]) ==> segments[i].memsz > 0
    requires forall i, j :: 0 <= i < j < |segments| && Wanted(segments[i]) && Wanted(segments[j]) ==>
               PageStart(Target(segments[i], base), v.page) + RoundUp(segments[i].memsz, v.page) <= Target(segments[j], base)
    ensures Clear(v, segments, base)
  {
    hide RoundUp, PageStart, Lookup;
    forall i, j | 0 <= i < j < |segments| && Wanted(segments[i]) && Wanted(segments[j])
                  && Lookup(v, Target(segments[i], base)).Some?
      ensures !EntryFor(v, segments[i], 0, base).Covers(Target(segments[j], base))
    {
      var t := Target(segments[i], base);
      LookupCovers(v, t);
      var m := Lookup(v, t).value;
      assert Mapped(v, m);
      AlignedBelow(m.vaddr, t, v.page);
    }
  }

  /** An entry of the first view that one of the first n segments may have taken over since. */
  ghost predicate Evolved(v: View, e: Mapping, e': Mapping, segments: seq<Segment>, fd: int, base: nat, n: nat)
    requires v.page > 0 && n <= |segments|
  {
    || e' == e
    || (exists i :: && 0 <= i < n && Wanted(segments[i]) && Lookup(v, Target(segments[i], base)) == Some(e)
                    && e.fd != fd && !InTheWay(e, segments[i], fd, v.page) && e' == Takeover(e, segments[i], fd, v.page))
  }

  ghost predicate AllEvolved(v: View, v': View, segments: seq<Segment>, fd: int, base: nat, n: nat)
    requires v.page > 0 && n <= |segments|
  {
    && v'.page == v.page && v'.files == v.files && |v'.core| == |v.core| && |v'.share| == |v.share|
    && (forall k :: 0 <= k < |v.core| ==> Evolved(v, v.core[k], v'.core[k], segments, fd, base, n))
    && (forall k :: 0 <= k < |v.share| ==> Evolved(v, v.share[k], v'.share[k], segments, fd, base, n))
  }

  /** As far as the address of a later segment goes, nothing has changed. */
  predicate SameAt(e: Mapping, e': Mapping, t: int) {
    e'.vaddr == e.vaddr && (e'.Covers(t) <==> e.Covers(t)) && (e.Covers(t) ==> e' == e)
  }

  lemma EvolvedSame(v: View, e: Mapping, e': Mapping, segments: seq<Segment>, fd: int, base: nat, n: nat, j: nat)
    requires v.page > 0 && Clear(v, segments, base) && n <= j < |segments| && Wanted(segments[j])
    requires Evolved(v, e, e', segments, fd, base, n)
    ensures SameAt(e, e', Target(segments[j], base))
  {
    hide RoundUp, Lookup;
    if e' != e {
      var i :| && 0 <= i < n && Wanted(segments[i]) && Lookup(v, Target(segments[i], base)) == Some(e)
               && e.fd != fd && !InTheWay(e, segments[i], fd, v.page) && e' == Takeover(e, segments[i], fd, v.page);
      LookupCovers(v, Target(segments[i], base));
      TakeoverCovers(e, segments[i], fd, base, v.page);
    }
  }

  lemma {:induction false} SameLast(core: seq<Mapping>, core': seq<Mapping>, t: int)
    requires |core'| == |core| && forall k :: 0 <= k < |core| ==> core'[k].vaddr == core[k].vaddr
    ensures LastAtOrBelow(core', t) == LastAtOrBelow(core, t)
  {
    if core != [] {
      SameLast(core[..|core| - 1], core'[..|core| - 1], t);
    }
  }

  lemma {:induction false} SameFirst(share: seq<Mapping>, share': seq<Mapping>, t: int)
    requires |share'| == |share| && forall k :: 0 <= k < |share| ==> SameAt(share[k], share'[k], t)
    ensures FirstCovering(share', t) == FirstCovering(share, t)
  {
    if share != [] {
      assert SameAt(share[0], share'[0], t);
      SameFirst(share[1..], share'[1..], t);
    }
  }

  /** So later segments are looked up as if nothing had been taken over. */
  lemma LookupStays(v: View, v': View, segments: seq<Segment>, fd: int, base: nat, n: nat, j: nat)
    requires v.page > 0 && Clear(v, segments, base) && n <= j < |segments| && Wanted(segments[j])
    requires AllEvolved(v, v', segments, fd, base, n)
    ensures Lookup(v', Target(segments[j], base)) == Lookup(v, Target(segments[j], base))
  {
    hide Clear, Evolved;
    var t := Target(segments[j], base);
    forall k | 0 <= k < |v.core|
      ensures SameAt(v.core[k], v'.core[k], t)
    {
      EvolvedSame(v, v.core[k], v'.core[k], segments, fd, base, n, j);
    }
    forall k | 0 <= k < |v.share|
      ensures SameAt(v.share[k], v'.share[k], t)
    {
      EvolvedSame(v, v.share[k], v'.share[k], segments, fd, base, n, j);
    }
    SameLast(v.core, v'.core, t);
    SameFirst(v.share, v'.share, t);
  }

  lemma EvolvedMore(v: View, e: Mapping, e': Mapping, segments: seq<Segment>, fd: int, base: nat, n: nat)
    requires v.page > 0 && n < |segments| && Evolved(v, e, e', segments, fd, base, n)
    ensures Evolved(v, e, e', segments, fd, base, n + 1)
  {
    hide Lookup, InTheWay, RoundUp;
  }

  lemma AllEvolvedMore(v: View, v': View, segments: seq<Segment>, fd: int, base: nat, n: nat)
    requires v.page > 0 && n < |segments| && AllEvolved(v, v', segments, fd, base, n)
    ensures AllEvolved(v, v', segments, fd, base, n + 1)
  {
    hide Evolved;
    forall k | 0 <= k < |v.core|
      ensures Evolved(v, v.core[k], v'.core[k], segments, fd, base, n + 1)
    {
      EvolvedMore(v, v.core[k], v'.core[k], segments, fd, base, n);
    }
    forall k | 0 <= k < |v.share|
      ensures Evolved(v, v.share[k], v'.share[k], segments, fd, base, n + 1)
    {
      EvolvedMore(v, v.share[k], v'.share[k], segments, fd, base, n);
    }
  }

  /** An entry of another file has not been taken over yet. */
  lemma NotYetTaken(v: View, e: Mapping, m: Mapping, segments: seq<Segment>, fd: int, base: nat, n: nat)
    requires v.page > 0 && n < |segments| && Evolved(v, e, m, segments, fd, base, n) && m.fd != fd
    requires Wanted(segments[n]) && Lookup(v, Target(segments[n], base)) == Some(m)
    requires !InTheWay(m, segments[n], fd, v.page)
    ensures Evolved(v, e, Takeover(m, segments[n], fd, v.page), segments, fd, base, n + 1)
  {
    hide Lookup, InTheWay, RoundUp;
  }

  /** What one segment does when its address is in no entry of its own file. */
  lemma ClearStep(v: View, x: Index, x': Index, segments: seq<Segment>, fd: int, base: nat, n: nat)
    requires v.page > 0 && n < |segments| && Clear(v, segments, base) && AllEvolved(v, x.view, segments, fd, base, n)
    requires SegmentStep(x, x', segments[n], fd, base) && forall m :: Mapped(v, m) ==> m.fd != fd
    ensures AllEvolved(v, x'.view, segments, fd, base, n + 1)
    ensures Wanted(segments[n]) ==>
              var e := EntryFor(v, segments[n], fd, base);
              Listed(x', e) && e.Covers(Target(segments[n], base))
    ensures forall m :: Listed(x, m) && m.fd == fd ==> Listed(x', m)
  {
    hide RoundUp, Lookup, Leaves, InTheWay, Clear, Evolved;
    AllEvolvedMore(v, x.view, segments, fd, base, n);
    var s, t := segments[n], Target(segments[n], base);
    if Wanted(s) {
      LookupStays(v, x.view, segments, fd, base, n, n);
      LookupCovers(v, t);
      ClearSize(v, segments, base, n);
      if Lookup(v, t).Some? {
        var m := Lookup(v, t).value;
        assert Mapped(v, m);
        TakeoverCovers(m, s, fd, base, v.page);
        ReplacedEntries(x.view, x'.view, m, Takeover(m, s, fd, v.page));
        ReplacedEvolves(v, x.view, x'.view, m, segments, fd, base, n);
      } else {
        assert Added(s, fd, base) in x'.newest;
      }
    }
  }

  lemma ClearSize(v: View, segments: seq<Segment>, base: nat, n: nat)
    requires v.page > 0 && n < |segments| && Clear(v, segments, base) && Wanted(segments[n])
    ensures segments[n].memsz > 0
  {
  }

  lemma ReplacedEvolves(v: View, w: View, w': View, m: Mapping, segments: seq<Segment>, fd: int, base: nat, n: nat)
    requires v.page > 0 && n < |segments| && Wanted(segments[n]) && Lookup(v, Target(segments[n], base)) == Some(m)
    requires m.fd != fd && !InTheWay(m, segments[n], fd, v.page)
    requires AllEvolved(v, w, segments, fd, base, n) && AllEvolved(v, w, segments, fd, base, n + 1)
    requires Replaced(w, w', m, Takeover(m, segments[n], fd, v.page))
    ensures AllEvolved(v, w', segments, fd, base, n + 1)
  {
    hide RoundUp, Lookup, InTheWay, Evolved;
    var m' := Takeover(m, segments[n], fd, v.page);
    if k :| w'.share == w.share && 0 <= k < |w.core| && w.core[k] == m && w'.core == w.core[k := m'] {
      NotYetTaken(v, v.core[k], m, segments, fd, base, n);
    } else {
      var k :| 0 <= k < |w.share| && w.share[k] == m && w'.share == w.share[k := m'];
      NotYetTaken(v, v.share[k], m, segments, fd, base, n);
    }
  }

  /** The entries after a replacement. */
  lemma ReplacedEntries(v: View, v': View, m: Mapping, m': Mapping)
    requires Replaced(v, v', m, m')
    ensures Mapped(v', m')
    ensures forall e :: Mapped(v, e) && e != m ==> Mapped(v', e)
  {
    if k :| v'.share == v.share && 0 <= k < |v.core| && v.core[k] == m && v'.core == v.core[k := m'] {
      SeqReplaced(v.core, k, m');
    } else {
      var k :| 0 <= k < |v.share| && v.share[k] == m && v'.share == v.share[k := m'];
      SeqReplaced(v.share, k, m');
    }
  }

  lemma SeqReplaced(a: seq<Mapping>, k: nat, m': Mapping)
    requires k < |a|
    ensures m' in a[k := m']
    ensures forall e :: e in a && e != a[k] ==> e in a[k := m']
  {
    assert a[k := m'][k] == m';
    forall e | e in a && e != a[k]
      ensures e in a[k := m']
    {
      var i :| 0 <= i < |a| && a[i] == e;
      assert a[k := m'][i] == e;
    }
  }

  lemma {:induction false} EvolvedThroughout(xs: seq<Index>, segments: seq<Segment>, fd: int, base: nat, n: nat)
    requires SegmentRun(xs, segments, fd, base) && n < |xs| && Clear(xs[0].view, segments, base)
    requires forall m :: Mapped(xs[0].view, m) ==> m.fd != fd
    ensures AllEvolved(xs[0].view, xs[n].view, segments, fd, base, n)
  {
    hide SegmentStep, Clear, Mapped;
    if n > 0 {
      EvolvedThroughout(xs, segments, fd, base, n - 1);
      assert SegmentStep(xs[n - 1], xs[n - 1 + 1], segments[n - 1], fd, base);
      ClearStep(xs[0].view, xs[n - 1], xs[n], segments, fd, base, n - 1);
    }
  }

  /**
   If the file has no entries before, and no segment's entry covers a later segment, then every
   wanted segment ends up with the entry its address called for in the beginning, which covers it.
   */
  lemma {:induction false} AllServed(xs: seq<Index>, segments: seq<Segment>, fd: int, base: nat, n: nat, i: nat)
    requires SegmentRun(xs, segments, fd, base) && n < |xs| && i < n
    requires Clear(xs[0].view, segments, base) && Wanted(segments[i])
    requires forall m :: Mapped(xs[0].view, m) ==> m.fd != fd
    ensures var e := EntryFor(xs[0].view, segments[i], fd, base);
            Listed(xs[n], e) && e.Covers(Target(segments[i], base))
  {
    hide SegmentStep, Clear, Mapped, AllEvolved, Lookup;
    EvolvedThroughout(xs, segments, fd, base, n - 1);
    assert SegmentStep(xs[n - 1], xs[n - 1 + 1], segments[n - 1], fd, base);
    ClearStep(xs[0].view, xs[n - 1], xs[n], segments, fd, base, n - 1);
    if i < n - 1 {
      AllServed(xs, segments, fd, base, n - 1, i);
    }
  }

  /** A library of two segments in a core entry of three pages. */
  const TWO_SEGMENTS := [ Segment(true, false, 0, 0x1000, 0x2010, 0x2010), Segment(true, false, 0x2100, 0x3100, 0x10, 0x10) ]

  function OneEntry(m: Mapping): Index { Index([], 1, View([m], [], map[], 0x1000)) }

  function TwoTakeovers(): seq<Index> {
    [ OneEntry(Mapping(3, 0, 0x1000, 0x3000)), OneEntry(Mapping(7, 0, 0x1000, 0x3000)),
      OneEntry(Mapping(7, 0x2100, 0x1000, 0x1000)) ]
  }

  lemma OneEntryStep(m: Mapping, s: Segment, m': Mapping)
    requires Wanted(s) && m.Covers(Target(s, 0)) && !InTheWay(m, s, 7, 0x1000) && m' == Takeover(m, s, 7, 0x1000)
    ensures SegmentStep(OneEntry(m), OneEntry(m'), s, 7, 0)
  {
    var x, x' := OneEntry(m), OneEntry(m');
    assert LastAtOrBelow(x.view.core, Target(s, 0)) == 0;
    assert x.view.core[0] == m && x'.view.core == x.view.core[0 := m'];
  }

  lemma TwoSizes()
    ensures RoundUp(0x2010, 0x1000) == 0x3000 && RoundUp(0x3000, 0x1000) == 0x3000 && RoundUp(0x10, 0x1000) == 0x1000
  {
  }

  lemma TwoSteps()
    ensures SegmentRun(TwoTakeovers(), TWO_SEGMENTS, 7, 0)
  {
    hide RoundUp, SegmentStep;
    TwoSizes();
    var xs, ss := TwoTakeovers(), TWO_SEGMENTS;
    OneEntryStep(xs[0].view.core[0], ss[0], xs[1].view.core[0]);
    OneEntryStep(xs[1].view.core[0], ss[1], xs[2].view.core[0]);
    assert forall i :: 0 <= i < 3 ==> xs[i].view.page == 0x1000;
  }

  lemma OneEntryLookup(m: Mapping, t: int)
    requires m.vaddr <= t
    ensures Lookup(OneEntry(m).view, t) == if m.Covers(t) then Some(m) else None
  {
    assert LastAtOrBelow([m], t) == 0;
  }

  /** The second makes the entry end before its own address, and the first one's entry is gone too. */
  lemma SecondTakeoverShrinks()
    ensures SegmentRun(TwoTakeovers(), TWO_SEGMENTS, 7, 0) && |TwoTakeovers()| == |TWO_SEGMENTS| + 1
    ensures var first, last := TwoTakeovers()[0], TwoTakeovers()[2];
            && !Clear(first.view, TWO_SEGMENTS, 0) && Lookup(last.view, Target(TWO_SEGMENTS[1], 0)) == None
            && forall i :: 0 <= i < 2 ==>
                 var e := EntryFor(first.view, TWO_SEGMENTS[i], 7, 0);
                 Wanted(TWO_SEGMENTS[i]) && !(Listed(last, e) && e.Covers(Target(TWO_SEGMENTS[i], 0)))
  {
    hide RoundUp, SegmentRun, Lookup;
    TwoSizes();
    TwoSteps();
    var first, last, ss := TwoTakeovers()[0], TwoTakeovers()[2], TWO_SEGMENTS;
    OneEntryLookup(first.view.core[0], 0x1000);
    OneEntryLookup(first.view.core[0], 0x3100);
    OneEntryLookup(last.view.core[0], 0x3100);
    assert EntryFor(first.view, ss[0], 0, 0).Covers(Target(ss[1], 0));
  }

  // ----- What reads deliver then -----

  /** The offset in the file that a read at address a goes to. */
  function FileOffset(m: Mapping, a: int): int { m.offset + (a - m.vaddr) }

  /** The offset at which the file has the segment's contents for address a. */
  function SegmentOffset(s: Segment, base: nat, a: int): int { s.offset + (a - Target(s, base)) }

  /** A one-byte read is the byte of the mapping found. */
  lemma ReadOneByte(v: View, m: Mapping, a: nat)
    requires v.page > 0 && Lookup(v, a) == Some(m) && m.fd in v.files && FileOffset(m, a) < |v.files[m.fd]|
    requires m.Covers(a)
    ensures Read(v, a, 1) == Some([v.files[m.fd][FileOffset(m, a)]])
  {
    OwnersUnfold(v, a, 1, m);
    var off := FileOffset(m, a);
    assert Pread(v.files, m.fd, 1, off) == [v.files[m.fd][off]];
    hide Lookup, Pread, Padding;
    ReadNothing(v, a + 1);
    assert [v.files[m.fd][off]] + Repeat<Byte>(0, 0) + [] == [v.files[m.fd][off]];
  }

  /** Whatever the files hold, a read at address a delivers the segment's byte. */
  ghost predicate ReadsSegment(v: View, s: Segment, fd: int, base: nat, a: nat)
    requires v.page > 0 && Target(s, base) <= a
  {
    forall files: map<int, seq<Byte>> :: Holds(files, fd, s, base, a, v) ==>
      Read(v.(files := files), a, 1) == Some([files[fd][SegmentOffset(s, base, a)]])
  }

  /** The file is long enough for the read and for the segment. */
  predicate Holds(files: map<int, seq<Byte>>, fd: int, s: Segment, base: nat, a: nat, v: View)
    requires Target(s, base) <= a
  {
    && fd in files && SegmentOffset(s, base, a) < |files[fd]|
    && (Lookup(v, a).Some? ==> FileOffset(Lookup(v, a).value, a) < |files[fd]|)
  }

  /**
   Taking an entry over does not move it, so its bytes are the segment's exactly if it starts
   where the segment does. A segment that starts inside a page is read from too far into the file.
   */
  lemma TakeoverReads(v: View, m: Mapping, s: Segment, fd: int, base: nat, a: nat)
    requires v.page > 0 && Target(s, base) <= a && m.vaddr <= Target(s, base)
    requires Lookup(v, a) == Some(Takeover(m, s, fd, v.page))
    ensures ReadsSegment(v, s, fd, base, a) <==> m.vaddr == Target(s, base)
  {
    var m' := Takeover(m, s, fd, v.page);
    LookupCovers(v, a);
    hide RoundUp;
    if m.vaddr == Target(s, base) {
      forall files: map<int, seq<Byte>> | Holds(files, fd, s, base, a, v)
        ensures Read(v.(files := files), a, 1) == Some([files[fd][SegmentOffset(s, base, a)]])
      {
        LookupIgnoresFiles(v, files, a);
        ReadOneByte(v.(files := files), m', a);
      }
    } else {
      var right := SegmentOffset(s, base, a);
      var contents := seq(FileOffset(m', a) + 1, i => if i == right then 1 else 0);
      var files := map[fd := contents];
      assert contents[right] == 1 && contents[FileOffset(m', a)] == 0;
      LookupIgnoresFiles(v, files, a);
      ReadOneByte(v.(files := files), m', a);
      assert Holds(files, fd, s, base, a, v);
    }
  }

  lemma LookupIgnoresFiles(v: View, files: map<int, seq<Byte>>, a: int)
    ensures Lookup(v.(files := files), a) == Lookup(v, a)
  {
  }

  /** An entry added for a segment is read right throughout. */
  lemma AddedReads(v: View, s: Segment, fd: int, base: nat, a: nat)
    requires v.page > 0 && Lookup(v, a) == Some(Added(s, fd, base))
    ensures Target(s, base) <= a && ReadsSegment(v, s, fd, base, a)
  {
    LookupCovers(v, a);
    forall files: map<int, seq<Byte>> | Holds(files, fd, s, base, a, v)
      ensures Read(v.(files := files), a, 1) == Some([files[fd][SegmentOffset(s, base, a)]])
    {
      LookupIgnoresFiles(v, files, a);
      ReadOneByte(v.(files := files), Added(s, fd, base), a);
    }
  }

  /** What lookups see after the next sort: every entry there is, in address order. */
  ghost predicate Resorted(x: Index, v: View) {
    && v.share == x.view.share && v.files == x.view.files && v.page == x.view.page && Sorted(v.core)
    && forall m :: m in v.core <==> m in x.newest || m in x.view.core
  }

  /** No other entry of the array starts between the start of e and address a. */
  ghost predicate Nearest(core: seq<Mapping>, e: Mapping, a: int) {
    forall m :: m in core && m != e ==> m.vaddr < e.vaddr || a < m.vaddr
  }

  /** In an array without overlaps this is so at every address of an entry. */
  lemma DisjointNearest(core: seq<Mapping>, e: Mapping, a: int)
    requires Disjoint(core) && e in core && e.Covers(a)
    ensures Nearest(core, e, a)
  {
    var i :| 0 <= i < |core| && core[i] == e;
    forall m | m in core && m != e
      ensures m.vaddr < e.vaddr || a < m.vaddr
    {
      var j :| 0 <= j < |core| && core[j] == m;
      assert i < j || j < i;
    }
  }

  lemma NearestFound(v: View, e: Mapping, a: int)
    requires Sorted(v.core) && e in v.core && e.Covers(a) && Nearest(v.core, e, a)
    ensures Lookup(v, a) == Some(e)
  {
    var i :| 0 <= i < |v.core| && v.core[i] == e;
    var k := LastAtOrBelow(v.core, a);
    if k < i {
      AboveLast(v.core, a, i);
    } else {
      AtOrBelowLast(v.core, a);
      assert v.core[k] in v.core;
    }
  }

  /** The segment's entry is what reads at address a of the segment use. */
  ghost predicate ReadThere(before: View, after: View, s: Segment, fd: int, base: nat, a: nat)
    requires before.page > 0
  {
    var e := EntryFor(before, s, fd, base);
    Target(s, base) <= a && e.Covers(a) && Nearest(after.core, e, a)
  }

  /** The segment gets a new entry, or one that starts where it does. */
  predicate StartsRight(before: View, s: Segment, base: nat) {
    match Lookup(before, Target(s, base))
    case None => true
    case Some(m) => m.vaddr == Target(s, base)
  }

  /**
   What a library's segments are to reads, from what lookups saw before it to what they see after
   the next sort: each has its entry there, and is read right exactly if it starts right.
   */
  ghost predicate SegmentsRead(before: View, after: View, segments: seq<Segment>, fd: int, base: nat)
    requires before.page > 0 && after.page > 0
  {
    && (forall i :: 0 <= i < |segments| && Wanted(segments[i]) ==>
          var e := EntryFor(before, segments[i], fd, base);
          e in after.core && e.Covers(Target(segments[i], base)))
    && (forall i: nat, a: nat :: i < |segments| && Wanted(segments[i]) && ReadThere(before, after, segments[i], fd, base, a) ==>
          (ReadsSegment(after, segments[i], fd, base, a) <==> StartsRight(before, segments[i], base)))
  }

  lemma SegmentRead(before: View, after: View, s: Segment, fd: int, base: nat, a: nat)
    requires before.page == after.page > 0 && Sorted(after.core) && EntryFor(before, s, fd, base) in after.core
    requires ReadThere(before, after, s, fd, base, a)
    ensures ReadsSegment(after, s, fd, base, a) <==> StartsRight(before, s, base)
  {
    NearestFound(after, EntryFor(before, s, fd, base), a);
    LookupCovers(before, Target(s, base));
    hide Lookup, ReadsSegment, RoundUp, Nearest, Sorted;
    match Lookup(before, Target(s, base))
    case None => AddedReads(after, s, fd, base, a);
    case Some(m) => TakeoverReads(after, m, s, fd, base, a);
  }

  /** The run over a library's segments and the sort after it, joined. */
  lemma LibraryRead(xs: seq<Index>, segments: seq<Segment>, fd: int, base: nat, after: View)
    requires SegmentRun(xs, segments, fd, base) && |xs| == |segments| + 1 && Resorted(xs[|segments|], after)
    requires Clear(xs[0].view, segments, base) && xs[0].view.share == []
    requires forall m :: Mapped(xs[0].view, m) ==> m.fd != fd
    ensures after.page == xs[0].view.page && SegmentsRead(xs[0].view, after, segments, fd, base)
  {
    var before, n := xs[0].view, |segments|;
    EvolvedThroughout(xs, segments, fd, base, n);
    hide Clear, Evolved, ReadThere, ReadsSegment, StartsRight, EntryFor, Sorted, SegmentStep;
    forall i: nat | i < n && Wanted(segments[i])
      ensures var e := EntryFor(before, segments[i], fd, base); e in after.core && e.Covers(Target(segments[i], base))
    {
      AllServed(xs, segments, fd, base, n, i);
    }
    forall i: nat, a: nat | i < n && Wanted(segments[i]) && ReadThere(before, after, segments[i], fd, base, a)
      ensures ReadsSegment(after, segments[i], fd, base, a) <==> StartsRight(before, segments[i], base)
    {
      SegmentRead(before, after, segments[i], fd, base, a);
    }
  }

  /** A text segment at 0x1100, in a core mapping of one page at 0x1000: its first byte is read from 0x100 too far on. */
  lemma TextReadTooFar(file: seq<Byte>)
    requires |file| == 0x1000
    ensures var s := Segment(true, false, 0x100, 0x1100, 0x800, 0x800);
            var m := Mapping(3, 0x5000, 0x1000, 0x1000);
            var v := View([Takeover(m, s, 7, 0x1000)], [], map[7 := file], 0x1000);
            && Wanted(s) && m.Covers(Target(s, 0)) && !InTheWay(m, s, 7, 0x1000)
            && Read(v, 0x1100, 1) == Some([file[0x200]]) && SegmentOffset(s, 0, 0x1100) == 0x100
  {
    var s := Segment(true, false, 0x100, 0x1100, 0x800, 0x800);
    var m := Mapping(3, 0x5000, 0x1000, 0x1000);
    assert RoundUp(0x800, 0x1000) == 0x1000;
    var v := View([Takeover(m, s, 7, 0x1000)], [], map[7 := file], 0x1000);
    assert LastAtOrBelow(v.core, 0x1100) == 0;
    assert v.core[0].Covers(0x1100);
    ReadOneByte(v, v.core[0], 0x1100);
  }
}
