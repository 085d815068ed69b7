/**
 The handle on a core dump: a growing linked list of mappings, whose entries are overwritten
 in place, and an array of the same entries sorted by address that is rebuilt from time to time.
 */
module CoreFile {
  import opened Common
  import opened CoreImage
  import opened LibSegments
  import opened LinkMaps

  class MapInfo {
    var fd: int
    var offset: nat
    var vaddr: nat
    var memsz: nat

    constructor (fd: int, offset: nat, vaddr: nat, memsz: nat)
      ensures Info() == Mapping(fd, offset, vaddr, memsz)
    {
      this.fd, this.offset, this.vaddr, this.memsz := fd, offset, vaddr, memsz;
    }

    function Info(): Mapping
      reads this
    {
      Mapping(fd, offset, vaddr, memsz)
    }
  }

  ghost function Infos(s: seq<MapInfo>): (r: seq<Mapping>)
    reads s
    ensures |r| == |s| && forall i :: 0 <= i < |s| ==> r[i] == s[i].Info()
  {
    seq(|s|, i requires 0 <= i < |s| reads s => s[i].Info())
  }

  lemma JoinedInfos(a: seq<MapInfo>, b: seq<MapInfo>)
    ensures Infos(a + b) == Infos(a) + Infos(b)
  {
  }

  lemma InfosMembers(a: seq<MapInfo>, b: seq<MapInfo>)
    requires multiset(a) == multiset(b)
    ensures forall m :: m in Infos(a) <==> m in Infos(b)
  {
    InfosIncluded(a, b);
    InfosIncluded(b, a);
  }

  lemma InfosIncluded(a: seq<MapInfo>, b: seq<MapInfo>)
    requires multiset(a) == multiset(b)
    ensures forall m :: m in Infos(a) ==> m in Infos(b)
  {
    forall m | m in Infos(a)
      ensures m in Infos(b)
    {
      var i :| 0 <= i < |a| && Infos(a)[i] == m;
      assert a[i] in multiset(b);
      var j :| 0 <= j < |b| && b[j] == a[i];
      assert Infos(b)[j] == m;
    }
  }

  ghost predicate SortedByVaddr(a: seq<MapInfo>)
    reads a
  {
    forall i, j :: 0 <= i < j < |a| ==> a[i].vaddr <= a[j].vaddr
  }

  /** Where an entry goes in a sorted sequence. */
  function InsertByVaddr(m: MapInfo, a: seq<MapInfo>): (r: seq<MapInfo>)
    reads m, a
    ensures multiset(r) == multiset(a) + multiset{m}
  {
    if a == [] || m.vaddr <= a[0].vaddr then [m] + a
    else
      assert a == [a[0]] + a[1..];
      [a[0]] + InsertByVaddr(m, a[1..])
  }

  lemma {:induction false} InsertKeepsSorted(m: MapInfo, a: seq<MapInfo>)
    requires SortedByVaddr(a)
    ensures SortedByVaddr(InsertByVaddr(m, a))
  {
    if a != [] && m.vaddr > a[0].vaddr {
      InsertKeepsSorted(m, a[1..]);
      var r := InsertByVaddr(m, a[1..]);
      forall i | 0 <= i < |r|
        ensures a[0].vaddr <= r[i].vaddr
      {
        assert r[i] in multiset(r);
        assert r[i] == m || r[i] in multiset(a[1..]);
      }
    }
  }

  /** Sorting, as the C library specifies it. */
  method SortEntries(a: seq<MapInfo>) returns (b: seq<MapInfo>)
    ensures SortedByVaddr(b) && multiset(b) == multiset(a)
  {
    b := [];
    assert a[..0] == [];
    for i := 0 to |a|
      invariant SortedByVaddr(b) && multiset(b) == multiset(a[..i])
    {
      InsertKeepsSorted(a[i], b);
      assert a[..i + 1] == a[..i] + [a[i]];
      b := InsertByVaddr(a[i], b);
    }
    assert a[..|a|] == a;
  }

  lemma SamePermutationLength(a: seq<MapInfo>, b: seq<MapInfo>)
    requires multiset(a) == multiset(b)
    ensures |a| == |b|
  {
    assert |multiset(a)| == |a| && |multiset(b)| == |b|;
  }

  // ----- No entry twice -----

  ghost predicate Distinct(a: seq<MapInfo>) {
    forall i, j :: 0 <= i < j < |a| ==> a[i] != a[j]
  }

  lemma {:induction false} DistinctCount(a: seq<MapInfo>, e: MapInfo)
    requires Distinct(a)
    ensures multiset(a)[e] <= 1
  {
    if a != [] {
      DistinctCount(a[1..], e);
      assert a == [a[0]] + a[1..];
      assert a[0] == e ==> e !in a[1..];
    }
  }

  lemma TwiceCounts(a: seq<MapInfo>, i: nat, j: nat)
    requires i < j < |a| && a[i] == a[j]
    ensures multiset(a)[a[i]] >= 2
  {
    assert a == a[..i] + [a[i]] + a[i + 1..j] + [a[j]] + a[j + 1..];
  }

  /** A permutation of the first part keeps a sequence free of repetition. */
  lemma DistinctPermutation(a: seq<MapInfo>, b: seq<MapInfo>, c: seq<MapInfo>)
    requires Distinct(a + c) && multiset(a) == multiset(b)
    ensures Distinct(b + c)
  {
    assert multiset(a + c) == multiset(a) + multiset(c) == multiset(b) + multiset(c) == multiset(b + c);
    if i, j :| 0 <= i < j < |b + c| && (b + c)[i] == (b + c)[j] {
      TwiceCounts(b + c, i, j);
      DistinctCount(a + c, (b + c)[i]);
    }
  }

  /** Outcome of a lookup; the first is a reference outside the array. */
  datatype Found = OutsideArray | Nowhere | At(entry: MapInfo)

  /** Two positions around an address, as the search leaves them. */
  ghost predicate Encloses(a: seq<MapInfo>, addr: int, lo: nat, hi: nat)
    reads a
  {
    && lo <= hi < |a| && hi <= lo + 1
    && (lo > 0 ==> a[lo].vaddr <= addr)
    && (hi < |a| - 1 ==> addr < a[hi].vaddr)
  }

  /** The segments of a file that get an entry; of an executable, only the read-only ones. */
  function Loaded(segments: seq<Segment>, writable: bool): seq<Segment> {
    if segments == [] then []
    else
      var last := segments[|segments| - 1];
      Loaded(segments[..|segments| - 1], writable)
      + if last.load && last.filesz != 0 && (writable || !last.writable) then [last] else []
  }

  ghost function ToLoad(segments: seq<Segment>, writable: bool): set<nat> {
    set k: nat | k < |segments| && segments[k].load && segments[k].filesz != 0 && (segments[k].writable ==> writable)
  }

  lemma ToLoadGrows(segments: seq<Segment>, writable: bool)
    requires segments != []
    ensures var last := |segments| - 1;
            var init, s := segments[..last], segments[last];
            ToLoad(segments, writable) ==
            if s.load && s.filesz != 0 && (s.writable ==> writable) then ToLoad(init, writable) + {last} else ToLoad(init, writable)
  {
  }

  /** As many as there are segments to load with file content; of an executable, read-only ones. */
  lemma {:induction false} LoadedCount(segments: seq<Segment>, writable: bool)
    ensures |Loaded(segments, writable)| == |ToLoad(segments, writable)|
  {
    if segments == [] {
      assert ToLoad([], writable) == {};
    } else {
      LoadedCount(segments[..|segments| - 1], writable);
      ToLoadGrows(segments, writable);
      assert |segments| - 1 !in ToLoad(segments[..|segments| - 1], writable);
    }
  }

  /** In the order of the program headers. */
  lemma {:induction false} LoadedIs(segments: seq<Segment>, writable: bool, i: nat)
    requires i < |segments| && segments[i].load && segments[i].filesz != 0 && (segments[i].writable ==> writable)
    ensures var k := |Loaded(segments[..i], writable)|;
            k < |Loaded(segments, writable)| && Loaded(segments, writable)[k] == segments[i]
  {
    var last := |segments| - 1;
    if i < last {
      LoadedIs(segments[..last], writable, i);
      assert segments[..last][..i] == segments[..i];
    }
  }

  /** The entries of a file, one for each of these segments. */
  function FileEntries(fd: int, segments: seq<Segment>): (r: seq<Mapping>)
    ensures |r| == |segments|
    ensures forall k :: 0 <= k < |r| ==> r[k] == Mapping(fd, segments[k].offset, segments[k].vaddr, segments[k].filesz)
  {
    seq(|segments|, k requires 0 <= k < |segments| =>
          Mapping(fd, segments[k].offset, segments[k].vaddr, segments[k].filesz))
  }

  lemma ReversedMembers(entries: seq<MapInfo>, fd: int, segments: seq<Segment>)
    requires |entries| == |segments|
    requires forall k :: 0 <= k < |segments| ==>
               var s := segments[|segments| - 1 - k];
               entries[k].Info() == Mapping(fd, s.offset, s.vaddr, s.filesz)
    ensures forall m :: m in Infos(entries) <==> m in FileEntries(fd, segments)
  {
    var n := |segments|;
    forall m | m in Infos(entries)
      ensures m in FileEntries(fd, segments)
    {
      var k :| 0 <= k < n && Infos(entries)[k] == m;
      assert FileEntries(fd, segments)[n - 1 - k] == m;
    }
    forall m | m in FileEntries(fd, segments)
      ensures m in Infos(entries)
    {
      var k :| 0 <= k < n && FileEntries(fd, segments)[k] == m;
      assert Infos(entries)[n - 1 - k] == m;
    }
  }

  const BUF_SIZE := 4352
  const FIRST_LINK_MAP_OFFSET := 8
  const LD_BASE_OFFSET := 32
  const LINK_MAP_ADDR_OFFSET := 0
  const LINK_MAP_NAME_OFFSET := 8
  const LINK_MAP_NEXT_OFFSET := 24
  const DYN_SIZE := 16
  const ARCHIVE_MAGIC := 0xf00b_aba2
  const ARCHIVE_VERSION := 1
  /** Outcome of a step through the debuggee's tables. */
  datatype Step = NextAt(addr: nat) | StepFailed | StepOutside | StepUnfinished

  /** The newer list ends in the older one. */
  ghost predicate Extends(newer: seq<MapInfo>, older: seq<MapInfo>) {
    |older| <= |newer| && newer[|newer| - |older|..] == older
  }

  lemma ExtendsMore(a: seq<MapInfo>, b: seq<MapInfo>, c: seq<MapInfo>)
    requires Extends(a, b) && Extends(b, c)
    ensures Extends(a, c)
  {
  }

  lemma ExtendsItself(a: seq<MapInfo>)
    ensures Extends(a, a)
  {
  }

  lemma ExtendsTail(newer: seq<MapInfo>, older: seq<MapInfo>, n: nat)
    requires Extends(newer, older) && n == |newer| - |older|
    ensures newer[n..] == older
  {
  }

  /** The newer list is n entries and the older one. */
  ghost predicate Grown(older: seq<MapInfo>, newer: seq<MapInfo>, n: nat) {
    |newer| == |older| + n && newer[n..] == older
  }

  lemma GrownNot(a: seq<MapInfo>)
    ensures Grown(a, a, 0)
  {
  }

  lemma GrownMore(a: seq<MapInfo>, b: seq<MapInfo>, c: seq<MapInfo>, m: nat, n: nat)
    requires Grown(a, b, m) && Grown(b, c, n)
    ensures Grown(a, c, m + n) && |c| == |b| + n
    ensures forall k :: n <= k < |c| ==> c[k] == b[k - n]
  {
    assert c[n..][m..] == c[m + n..];
    assert forall k :: n <= k < |c| ==> c[k] == c[n..][k - n];
  }

  lemma GrownExtends(a: seq<MapInfo>, b: seq<MapInfo>, n: nat)
    requires Grown(a, b, n)
    ensures Extends(b, a)
  {
  }

  lemma EntriesOfExtension(index: seq<MapInfo>, list: seq<MapInfo>, index': seq<MapInfo>, list': seq<MapInfo>)
    requires multiset(index) == multiset(list) && multiset(index') == multiset(list') && Extends(list, list')
    ensures forall e :: e in index ==> e in index' || e in list[..|list| - |list'|]
  {
    forall e | e in index
      ensures e in index' || e in list[..|list| - |list'|]
    {
      assert e in multiset(list);
      assert list == list[..|list| - |list'|] + list';
      assert e in list' ==> e in multiset(index');
    }
  }

  datatype ReadResult = NoArray | Failed | Bytes(bytes: seq<Byte>)

  ghost function Prepend(s: seq<Byte>, r: Option<seq<Byte>>): Option<seq<Byte>> {
    match r
    case None => None
    case Some(t) => Some(s + t)
  }

  lemma PrependNothing(r: Option<seq<Byte>>)
    ensures Prepend([], r) == r
  {
    if r.Some? {
      assert [] + r.value == r.value;
    }
  }

  lemma PrependTwice(s: seq<Byte>, t: seq<Byte>, r: Option<seq<Byte>>)
    ensures Prepend(s, Prepend(t, r)) == Prepend(s + t, r)
  {
    if r.Some? {
      assert s + (t + r.value) == s + t + r.value;
    }
  }

  lemma DistinctInsert(a: seq<MapInfo>, m: MapInfo, b: seq<MapInfo>)
    requires Distinct(a + b) && m !in a && m !in b
    ensures Distinct(a + ([m] + b))
  {
    var c := a + b;
    var d := a + ([m] + b);
    assert forall i :: |a| < i < |d| ==> d[i] == c[i - 1];
    assert forall i :: 0 <= i < |a| ==> d[i] == c[i];
    assert forall i :: 0 <= i < |c| ==> c[i] in a || c[i] in b;
  }

  lemma PaddingInline(m: Mapping, page: nat)
    requires page > 0
    ensures Padding(m, page) == if m.memsz % page > 0 then page - m.memsz % page else 0
  {
  }

  /** One step of a read, short reads included. */
  lemma ReadUnfolds(v: View, addr: nat, size: nat, m: Mapping)
    requires v.page > 0 && size > 0 && Lookup(v, addr) == Some(m) && m.Covers(addr)
    ensures var data := Pread(v.files, m.fd, Min(size, m.vaddr + m.memsz - addr), m.offset + (addr - m.vaddr));
            && (data == [] ==> Read(v, addr, size).None?)
            && (data != [] ==>
                  var pad := Min(size - |data|, Padding(m, v.page));
                  Read(v, addr, size) == Prepend(data + Repeat<Byte>(0, pad), Read(v, addr + |data| + pad, size - |data| - pad)))
  {
    hide Lookup, Pread, Padding, Repeat;
  }

  class Core {
    var maps: seq<MapInfo>            // the linked list, newest first
    var numMaps: nat
    var classShareMaps: seq<MapInfo>
    var mapArray: seq<MapInfo>
    const files: map<int, seq<Byte>>
    const page: nat

    constructor (files: map<int, seq<Byte>>, page: nat)
      ensures maps == [] && numMaps == 0 && classShareMaps == [] && mapArray == []
      ensures this.files == files && this.page == page
    {
      maps, numMaps, classShareMaps, mapArray := [], 0, [], [];
      this.files, this.page := files, page;
    }

    /** No entry is in the lists twice, and the array is sorted, though perhaps not complete. */
    ghost predicate Valid()
      reads this, mapArray
    {
      && numMaps == |maps| && |mapArray| <= |maps| && page > 0 && SortedByVaddr(mapArray)
      && Distinct(maps + classShareMaps) && Distinct(mapArray + classShareMaps)
    }

    /** The array holds exactly the entries of the list, in address order. */
    ghost predicate IndexFresh()
      reads this, mapArray
    {
      Valid() && |mapArray| == |maps| && multiset(mapArray) == multiset(maps)
    }

    lemma FreshCount()
      requires IndexFresh()
      ensures numMaps == |maps| && page > 0 && Valid()
    {
    }

    ghost function View(): (v: View)
      reads this, mapArray, classShareMaps
      ensures v.page == page
    {
      CoreImage.View(Infos(mapArray), Infos(classShareMaps), files, page)
    }

    method AddMapInfo(fd: int, offset: nat, vaddr: nat, memsz: nat) returns (m: MapInfo)
      modifies this`maps, this`numMaps
      ensures fresh(m) && m.Info() == Mapping(fd, offset, vaddr, memsz)
      ensures maps == [m] + old(maps) && numMaps == old(numMaps) + 1
    {
      m := new MapInfo(fd, offset, vaddr, memsz);
      maps := [m] + maps;
      numMaps := numMaps + 1;
    }

    method AddClassShareMapInfo(fd: int, offset: nat, vaddr: nat, memsz: nat) returns (m: MapInfo)
      modifies this`classShareMaps
      ensures fresh(m) && m.Info() == Mapping(fd, offset, vaddr, memsz)
      ensures classShareMaps == [m] + old(classShareMaps)
    {
      m := new MapInfo(fd, offset, vaddr, memsz);
      classShareMaps := [m] + classShareMaps;
    }

    /** Rebuilding the array makes it fresh whatever has been added since. */
    method SortMapArray()
      requires numMaps == |maps| && page > 0 && Distinct(maps + classShareMaps)
      modifies this`mapArray
      ensures IndexFresh()
    {
      var entries: seq<MapInfo> := [];
      for i := 0 to |maps|
        invariant entries == maps[..i]
      {
        entries := entries + [maps[i]];
      }
      var sorted := SortEntries(entries);
      assert maps[..|maps|] == maps;
      SamePermutationLength(sorted, maps);
      DistinctPermutation(maps, sorted, classShareMaps);
      mapArray := sorted;
    }

    /**
     Binary search over numMaps positions, whatever the length of the array. It leaves the array
     exactly if the last position it probes there on the way to the right is the first one, or
     starts at or below the address; otherwise the two positions reached enclose the address.
     */
    method Bisect(addr: nat) returns (r: Option<(nat, nat)>)
      ensures r.Some? ==> r.value.0 < |mapArray| && r.value.1 < |mapArray|
      ensures SortedByVaddr(mapArray) && |mapArray| <= numMaps ==>
                && (r.None? <==> Leaves(Infos(mapArray), numMaps, addr))
                && (r.Some? ==> Encloses(mapArray, addr, r.value.0, r.value.1))
    {
      var lo, hi: int := 0, numMaps - 1;
      ghost var n := |mapArray|;
      ghost var sound := n > 0 && SortedByVaddr(mapArray) && n <= numMaps;
      ghost var last := if n > 0 then LastProbe(0, n, numMaps) else 0;
      while hi - lo > 1
        invariant 0 <= lo && (sound ==> lo < n && lo <= hi < numMaps)
        invariant !sound ==> lo <= hi < numMaps || (lo == 0 && hi == numMaps - 1)
        invariant sound && lo > 0 ==> mapArray[lo].vaddr <= addr
        invariant sound && hi == numMaps - 1 ==> LastProbe(lo, n, numMaps) == last
        invariant sound && hi < numMaps - 1 ==> lo < hi < n && addr < mapArray[hi].vaddr
        invariant sound && hi < numMaps - 1 && n < numMaps ==> 0 < last && addr < mapArray[last].vaddr
      {
        var mid := (lo + hi) / 2;
        if mid >= |mapArray| {
          return None;
        }
        if addr >= mapArray[mid].vaddr {
          lo := mid;
        } else {
          hi := mid;
        }
      }
      if hi < 0 || hi >= |mapArray| || lo >= |mapArray| {
        return None;
      }
      r := Some((lo, hi));
    }

    /**
     The lookup leaves the array exactly if the search does; otherwise it finds what a linear scan
     of the array and the class-sharing list finds. Entries that are not in the array it misses.
     */
    method CoreLookup(addr: nat) returns (r: Found, ghost k: nat)
      ensures SortedByVaddr(mapArray) && |mapArray| <= numMaps ==>
                && (r.OutsideArray? <==> Leaves(View().core, numMaps, addr))
                && (r.Nowhere? ==> Lookup(View(), addr).None?)
                && (r.At? ==> Lookup(View(), addr) == Some(r.entry.Info()))
      ensures r.At? ==> r.entry.Info().Covers(addr)
      ensures r.At? ==> k < |mapArray + classShareMaps| && (mapArray + classShareMaps)[k] == r.entry
    {
      hide Leaves, Lookup;
      var slots := Bisect(addr);
      k := 0;
      if slots.None? {
        return OutsideArray, k;
      }
      var (lo, hi) := slots.value;
      var mp := if addr < mapArray[hi].vaddr then mapArray[lo] else mapArray[hi];
      var found := addr >= mp.vaddr && addr < mp.vaddr + mp.memsz;
      if SortedByVaddr(mapArray) && |mapArray| <= numMaps {
        EnclosedLookup(addr, lo, hi, mp);
      }
      if found {
        return At(mp), if addr < mapArray[hi].vaddr then lo else hi;
      }
      r, k := ShareLookup(addr);
      k := k + |mapArray|;
    }

    lemma EnclosedLookup(addr: nat, lo: nat, hi: nat, mp: MapInfo)
      requires SortedByVaddr(mapArray) && lo < |mapArray| && hi < |mapArray|
      requires Encloses(mapArray, addr, lo, hi)
      requires mp == if addr < mapArray[hi].vaddr then mapArray[lo] else mapArray[hi]
      ensures Lookup(View(), addr) ==
              if mp.Info().Covers(addr) then Some(mp.Info()) else FirstCovering(View().share, addr)
    {
      hide FirstCovering;
      var k := if addr >= mapArray[hi].vaddr then hi else if mapArray[lo].vaddr <= addr then lo else -1;
      LastAtOrBelowIs(View().core, addr, k);
    }

    /** The first class-sharing entry that contains the address. */
    method ShareLookup(addr: nat) returns (r: Found, ghost k: nat)
      ensures r.Nowhere? ==> FirstCovering(View().share, addr).None?
      ensures r.At? ==> k < |classShareMaps| && classShareMaps[k] == r.entry && r.entry.Info().Covers(addr)
      ensures r.At? ==> FirstCovering(View().share, addr) == Some(r.entry.Info())
      ensures !r.OutsideArray?
    {
      var i := 0;
      ghost var share := View().share;
      assert share[0..] == share;
      while i < |classShareMaps|
        invariant 0 <= i <= |classShareMaps|
        invariant FirstCovering(share, addr) == FirstCovering(share[i..], addr)
      {
        var sp := classShareMaps[i];
        assert share[i..][0] == sp.Info();
        if addr >= sp.vaddr && addr < sp.vaddr + sp.memsz {
          return At(sp), i;
        }
        assert share[i..][1..] == share[i + 1..];
        i := i + 1;
      }
      r, k := Nowhere, 0;
    }

    /**
     Reading from the debuggee, with a fresh index. The one remaining way to leave the array
     is to have no mapping at all.
     */
    method CoreReadData(addr0: nat, size: nat) returns (r: ReadResult)
      requires IndexFresh()
      ensures r.NoArray? <==> numMaps == 0 && size > 0
      ensures r.Failed? ==> Read(View(), addr0, size).None?
      ensures r.Bytes? ==> Read(View(), addr0, size) == Some(r.bytes)
    {
      hide Read, Lookup, Padding, Repeat;
      ghost var v := View();
      var addr: nat, resid: nat := addr0, size;
      var buf: seq<Byte> := [];
      PrependNothing(Read(v, addr, resid));
      while resid != 0
        invariant resid <= size && (resid < size ==> numMaps > 0)
        invariant Read(v, addr0, size) == Prepend(buf, Read(v, addr, resid))
        decreases resid
      {
        var mp, _ := CoreLookup(addr);
        if mp.OutsideArray? {
          return NoArray;
        }
        if mp.Nowhere? {
          NoLookupNoRead(v, addr, resid);
          return Failed;
        }
        var m := mp.entry.Info();
        var len := Min(resid, m.vaddr + m.memsz - addr);
        var data := Pread(files, m.fd, len, m.offset + (addr - m.vaddr));
        ReadUnfolds(v, addr, resid, m);
        if |data| <= 0 {
          return Failed;
        }
        var rem := m.memsz % page;
        var pad := 0;
        if rem > 0 {
          pad := Min(resid - |data|, page - rem);
        }
        assert pad == Min(resid - |data|, Padding(m, page)) by { PaddingInline(m, page); }
        PrependTwice(buf, data + Repeat<Byte>(0, pad), Read(v, addr + |data| + pad, resid - |data| - pad));
        buf := buf + (data + Repeat<Byte>(0, pad));
        addr := addr + |data| + pad;
        resid := resid - |data| - pad;
      }
      ReadNothing(v, addr);
      assert buf + [] == buf;
      r := Bytes(buf);
    }

    // ----- The segments of a library -----

    /** The n newest entries, the number of entries and what lookups see, on values. */
    ghost function Snapshot(n: nat): Index
      requires n <= |maps|
      reads this, maps, mapArray, classShareMaps
    {
      Index(Infos(maps[..n]), numMaps, View())
    }

    /** The n newest entries cannot be found by lookups. */
    ghost predicate Unindexed(n: nat)
      reads this
    {
      n <= |maps| && forall k :: 0 <= k < n ==> maps[k] !in mapArray && maps[k] !in classShareMaps
    }

    /** Overwriting the entry at position k of array and class-sharing list changes exactly that one. */
    method Overwrite(e: MapInfo, ghost k: nat, fd: int, offset: nat, memsz: nat)
      requires Distinct(mapArray + classShareMaps)
      requires k < |mapArray + classShareMaps| && (mapArray + classShareMaps)[k] == e
      modifies e
      ensures e.Info() == Mapping(fd, offset, old(e.vaddr), memsz)
      ensures Infos(mapArray + classShareMaps) == old(Infos(mapArray + classShareMaps))[k := e.Info()]
    {
      ghost var all := mapArray + classShareMaps;
      e.fd := fd;
      e.offset := offset;
      e.memsz := memsz;
      assert forall j :: 0 <= j < |all| && j != k ==> all[j] != e;
    }

    /** So it replaces one value of what lookups see, and leaves the array sorted. */
    method TakeOver(e: MapInfo, ghost k: nat, fd: int, offset: nat, memsz: nat, ghost n: nat)
      requires Valid() && Unindexed(n)
      requires k < |mapArray + classShareMaps| && (mapArray + classShareMaps)[k] == e
      modifies e
      ensures Valid() && Infos(maps[..n]) == old(Infos(maps[..n]))
      ensures Replaced(old(View()), View(), old(e.Info()), Mapping(fd, offset, old(e.vaddr), memsz))
    {
      hide Replaced, Distinct;
      ghost var before, info := View(), Mapping(fd, offset, e.vaddr, memsz);
      JoinedInfos(mapArray, classShareMaps);
      ghost var all := Infos(mapArray + classShareMaps);
      assert e in mapArray + classShareMaps;
      Overwrite(e, k, fd, offset, memsz);
      JoinedInfos(mapArray, classShareMaps);
      ReplacedAt(before, View(), all, k, info);
      AddressesStay(before, View(), all[k], info);
      assert SortedByVaddr(mapArray) by {
        assert forall j :: 0 <= j < |mapArray| ==> mapArray[j].vaddr == View().core[j].vaddr == before.core[j].vaddr;
      }
      assert Infos(maps[..n]) == old(Infos(maps[..n]));
    }

    /** A new entry, of which lookups know nothing. */
    method AddEntry(fd: int, offset: nat, vaddr: nat, memsz: nat, ghost n: nat)
      requires Valid() && Unindexed(n)
      modifies this`maps, this`numMaps
      ensures Valid() && Unindexed(n + 1) && numMaps == old(numMaps) + 1
      ensures |maps| == |old(maps)| + 1 && maps[1..] == old(maps) && fresh(maps[0])
      ensures Infos(maps[..n + 1]) == [Mapping(fd, offset, vaddr, memsz)] + old(Infos(maps[..n]))
    {
      var m := AddMapInfo(fd, offset, vaddr, memsz);
      assert maps + classShareMaps == [m] + (old(maps) + classShareMaps);
    }

    /** One segment: it takes over the entry its address is in, in place, or gets a new one, or is refused. */
    method TakeSegment(fd: int, php: Segment, base: nat, ghost n: nat) returns (r: LibResult, ghost n': nat)
      requires Valid() && Unindexed(n) && Wanted(php)
      modifies this`maps, this`numMaps, mapArray, classShareMaps
      ensures Valid() && n <= n' <= n + 1 && Unindexed(n')
      ensures Grown(old(maps), maps, n' - n) && (n' > n ==> fresh(maps[0]))
      ensures r.LibOk? ==> SegmentStep(old(Snapshot(n)), Snapshot(n'), php, fd, base)
      ensures r.Conflict? ==> Blocked(old(Snapshot(n)), php, fd, base)
      ensures r.LibOutside? ==> Leaves(View().core, numMaps, Target(php, base))
      ensures !r.LibOk? ==> n' == n && Snapshot(n') == old(Snapshot(n))
    {
      hide Lookup, Leaves, RoundUp, Replaced, Valid, Distinct, SortedByVaddr, SegmentStep, Blocked, Infos;
      ValidSearchable();
      ghost var x := Snapshot(n);
      n' := n;
      var target := php.vaddr + base;
      var existing, k := CoreLookup(target);
      match existing
      case OutsideArray =>
        r := LibOutside;
      case Nowhere =>
        AddEntry(fd, php.offset, target, php.memsz, n);
        n' := n + 1;
        StepAdds(x, php, fd, base);
        r := LibOk;
      case At(e) =>
        assert e in mapArray + classShareMaps;
        ghost var m := e.Info();
        if e.memsz != page && e.fd != fd && RoundUp(e.memsz, page) != RoundUp(php.memsz, page) {
          IsBlocked(x, m, php, fd, base);
          return Conflict, n';
        }
        TakeOver(e, k, fd, php.offset, RoundUp(php.memsz, page), n);
        StepTakesOver(x, Snapshot(n), m, php, fd, base);
        r := LibOk;
    }

    lemma SnapshotPage(n: nat)
      requires n <= |maps|
      ensures Snapshot(n).view.page == page
    {
    }

    lemma NoneUnindexed()
      ensures Unindexed(0)
    {
    }

    lemma ValidSearchable()
      requires Valid()
      ensures SortedByVaddr(mapArray) && |mapArray| <= numMaps && numMaps == |maps| && page > 0
    {
    }

    /** The next segment of a library, recorded in the run so far. */
    method NextSegment(fd: int, segments: seq<Segment>, i: nat, base: nat, ghost n: nat, ghost xs: seq<Index>)
      returns (r: LibResult, ghost n': nat, ghost xs': seq<Index>)
      requires Valid() && Unindexed(n) && i < |segments| && |xs| == i + 1
      requires SegmentRun(xs, segments, fd, base) && xs[i] == Snapshot(n)
      modifies this`maps, this`numMaps, mapArray, classShareMaps
      ensures Valid() && n <= n' <= n + 1 && Unindexed(n')
      ensures Grown(old(maps), maps, n' - n) && (n' > n ==> fresh(maps[0]))
      ensures SegmentRun(xs', segments, fd, base) && xs' == (if r.LibOk? then xs + [Snapshot(n')] else xs)
      ensures xs'[|xs'| - 1] == Snapshot(n')
      ensures r.Conflict? ==> BlockedAfter(xs', segments, fd, base)
      ensures r.LibOutside? ==> LeavesAfter(xs', segments, base)
    {
      hide Leaves, SegmentStep, Blocked, Valid, SegmentRun, Infos, View, Grown, SortedByVaddr;
      ValidSearchable();
      GrownNot(maps);
      r, n', xs' := LibOk, n, xs;
      var php := segments[i];
      if php.load && !php.writable && php.filesz != 0 {
        r, n' := TakeSegment(fd, php, base, n);
      } else {
        SkippedStep(xs[i], segments[i], fd, base);
      }
      if r.LibOk? {
        RunFurther(xs, Snapshot(n'), segments, fd, base);
        xs' := xs + [Snapshot(n')];
      }
    }

    method ReadSegments(fd: int, segments: seq<Segment>, base: nat) returns (r: LibResult, ghost xs: seq<Index>)
      requires Valid()
      modifies this`maps, this`numMaps, mapArray, classShareMaps
      ensures Valid() && numMaps >= old(numMaps) && Extends(maps, old(maps))
      ensures forall k :: 0 <= k < numMaps - old(numMaps) ==> fresh(maps[k])
      ensures SegmentRun(xs, segments, fd, base)
      ensures xs[0] == old(Snapshot(0)) && xs[|xs| - 1] == Snapshot(numMaps - old(numMaps))
      ensures r.LibOk? <==> |xs| == |segments| + 1
      ensures r.Conflict? ==> BlockedAfter(xs, segments, fd, base)
      ensures r.LibOutside? ==> LeavesAfter(xs, segments, base)
    {
      hide BlockedAfter, LeavesAfter, Valid, SegmentRun, Infos, View, Grown, Extends, SortedByVaddr, Unindexed, Snapshot;
      GrownNot(maps);
      r := LibOk;
      ghost var n := 0;
      xs := [Snapshot(0)];
      ValidSearchable();
      NoneUnindexed();
      SnapshotPage(0);
      RunStarts(Snapshot(0), segments, fd, base);
      var i := 0;
      while i < |segments| && r.LibOk?
        invariant 0 <= i <= |segments| && Valid() && Unindexed(n) && numMaps == |maps| == |old(maps)| + n
        invariant Grown(old(maps), maps, n)
        invariant forall k :: 0 <= k < n ==> fresh(maps[k])
        invariant |xs| == (if r.LibOk? then i + 1 else i) && |xs| > 0
        invariant SegmentRun(xs, segments, fd, base) && xs[0] == old(Snapshot(0)) && xs[|xs| - 1] == Snapshot(n)
        invariant r.Conflict? ==> BlockedAfter(xs, segments, fd, base)
        invariant r.LibOutside? ==> LeavesAfter(xs, segments, base)
      {
        ghost var before, n0 := maps, n;
        r, n, xs := NextSegment(fd, segments, i, base, n, xs);
        ValidSearchable();
        GrownMore(old(maps), before, maps, n0, n - n0);
        i := i + 1;
      }
      GrownExtends(old(maps), maps, n);
    }

    /**
     The segments of a shared object, one after the other. The index is stale from the first added
     entry to the next sort; in-place updates never make it stale.
     */
    method ReadLibSegments(fd: int, segments: seq<Segment>, base: nat) returns (r: LibResult, ghost xs: seq<Index>)
      requires Valid()
      modifies this`maps, this`numMaps, mapArray, classShareMaps
      ensures Valid() && numMaps >= old(numMaps) && Extends(maps, old(maps))
      ensures forall k :: 0 <= k < numMaps - old(numMaps) ==> fresh(maps[k])
      ensures SegmentRun(xs, segments, fd, base)
      ensures xs[0] == old(Snapshot(0)) && xs[|xs| - 1] == Snapshot(numMaps - old(numMaps))
      ensures r.LibOk? <==> |xs| == |segments| + 1
      ensures r.Conflict? ==> BlockedAfter(xs, segments, fd, base)
      ensures r.LibOutside? ==> LeavesAfter(xs, segments, base)
      ensures old(IndexFresh()) ==> (IndexFresh() <==> numMaps == old(numMaps))
    {
      hide BlockedAfter, LeavesAfter, SegmentRun, Infos, View, SortedByVaddr, Distinct;
      r, xs := ReadSegments(fd, segments, base);
    }

    lemma ViewParts()
      ensures View().core == Infos(mapArray) && View().share == Infos(classShareMaps) && View().files == files
      ensures classShareMaps == [] ==> View().share == []
    {
    }

    /** A sort keeps all entries, those added before it included. */
    lemma ResortedEntries(x: Index, index: seq<MapInfo>, n: nat, older: seq<MapInfo>)
      requires IndexFresh() && n <= |maps| && maps[n..] == older && multiset(index) == multiset(older)
      requires x.newest == Infos(maps[..n]) && x.view.core == Infos(index)
      requires x.view.share == Infos(classShareMaps) && x.view.page == page && x.view.files == files
      ensures Resorted(x, View())
    {
      hide Distinct;
      assert maps == maps[..n] + maps[n..];
      JoinedInfos(maps[..n], maps[n..]);
      InfosMembers(mapArray, maps);
      InfosMembers(index, older);
    }

    method ReadAndSort(fd: int, segments: seq<Segment>, base: nat) returns (r: LibResult, ghost xs: seq<Index>)
      requires IndexFresh()
      modifies this`maps, this`numMaps, this`mapArray, mapArray, classShareMaps
      ensures Valid() && Extends(maps, old(maps)) && numMaps >= old(numMaps)
      ensures forall i :: 0 <= i < |mapArray| ==> mapArray[i] in old(mapArray) || fresh(mapArray[i])
      ensures r.LibOk? ==> IndexFresh() && SegmentRun(xs, segments, fd, base) && |xs| == |segments| + 1
      ensures r.LibOk? ==> xs[0] == old(Snapshot(0)) && Resorted(xs[|segments|], View())
      ensures !r.LibOk? ==> SegmentRun(xs, segments, fd, base) && xs[0] == old(Snapshot(0))
      ensures r.Conflict? ==> BlockedAfter(xs, segments, fd, base)
      ensures r.LibOutside? ==> LeavesAfter(xs, segments, base)
    {
      hide BlockedAfter, LeavesAfter, SegmentRun, SortedByVaddr, Distinct, Infos, View, Extends, Resorted;
      r, xs := ReadLibSegments(fd, segments, base);
      if !r.LibOk? {
        return;
      }
      ghost var n := numMaps - old(numMaps);
      ghost var x, index := Snapshot(n), mapArray;
      ViewParts();
      SortMapArray();
      EntriesOfExtension(mapArray, maps, old(mapArray), old(maps));
      ExtendsTail(maps, old(maps), n);
      ResortedEntries(x, index, n, old(maps));
    }

    /** Adding a library: its segments, and a new sort, so that the debuggee can be read again. */
    method AddLibrary(fd: int, segments: seq<Segment>, base: nat) returns (r: LibResult)
      requires IndexFresh()
      modifies this`maps, this`numMaps, this`mapArray, mapArray, classShareMaps
      ensures Valid() && Extends(maps, old(maps)) && numMaps >= old(numMaps)
      ensures forall i :: 0 <= i < |mapArray| ==> mapArray[i] in old(mapArray) || fresh(mapArray[i])
      ensures r.LibOk? ==> IndexFresh() && Entered(old(View()), View(), segments, fd, base)
      ensures r.Conflict? ==> Refused(old(View()), segments, fd, base)
      ensures r.LibOutside? ==> Lost(old(View()), segments, fd, base)
    {
      hide Valid, IndexFresh, SegmentRun, Clear, Infos, View, Extends, Resorted, Entered, BlockedAfter, LeavesAfter;
      ghost var v := View();
      FreshCount();
      FreshIndex();
      ghost var xs;
      r, xs := ReadAndSort(fd, segments, base);
      if r.LibOk? {
        IsEntered(xs, v, View(), segments, fd, base);
      } else if r.Conflict? {
        assert RefusedBy(xs, v, segments, fd, base);
      } else {
        assert LostBy(xs, v, segments, fd, base);
      }
    }

    lemma FreshIndex()
      requires IndexFresh()
      ensures Snapshot(0) == Index([], |View().core|, View())
    {
    }

    /** One pointer-sized field of the debuggee. */
    method ReadPointer(addr: nat) returns (r: Option<nat>, noArray: bool)
      requires IndexFresh()
      ensures noArray <==> numMaps == 0
      ensures !noArray ==> r == Pointed(View(), addr)
    {
      var data := CoreReadData(addr, 8);
      noArray := data.NoArray?;
      r := if data.Bytes? then Some(Word(data.bytes)) else None;
    }

    /**
     A terminated string, copied up to the terminator into a buffer it must fit with one place
     to spare. On failure the characters before the failing one have been written, and the rest
     of the buffer is what it was.
     */
    method ReadString(addr: nat, buf: array<Byte>) returns (ok: bool, n: nat)
      requires IndexFresh() && numMaps > 0 && buf.Length > 0
      modifies buf
      ensures n < buf.Length && TextAt(View(), addr, buf[..n])
      ensures ok ==> n + 1 < buf.Length && Read(View(), addr + n, 1) == Some([0]) && buf[n] == buf[n + 1] == 0
      ensures ok ==> buf[n + 2..] == old(buf[n + 2..])
      ensures !ok ==> n == buf.Length - 1 || Read(View(), addr + n, 1).None?
      ensures !ok ==> buf[n..] == old(buf[n..])
    {
      hide Read, IndexFresh, View;
      FreshCount();
      ghost var v := View();
      n := 0;
      var c: Byte := 32;
      while c != 0
        invariant n < buf.Length && TextAt(v, addr, buf[..n])
        invariant c == 0 ==> n + 1 < buf.Length && buf[n] == 0 && Read(v, addr + n, 1) == Some([0])
        invariant c == 0 ==> buf[n + 1..] == old(buf[n + 1..])
        invariant c != 0 ==> buf[n..] == old(buf[n..])
        decreases if c == 0 then 0 else 1, buf.Length - n
      {
        var data := CoreReadData(addr + n, 1);
        if !data.Bytes? {
          return false, n;
        }
        ReadIsOwned(v, addr + n, 1);
        c := data.bytes[0];
        assert data.bytes == [c];
        if n < buf.Length - 1 {
          ghost var before := buf[..];
          buf[n] := c;
          assert buf[..n] == before[..n] && buf[n + 1..] == before[n..][1..];
        } else {
          return false, n;
        }
        if c != 0 {
          assert buf[..n + 1] == buf[..n] + [c];
          n := n + 1;
        }
      }
      ghost var before := buf[..];
      buf[n + 1] := 0;
      assert buf[..n] == before[..n] && buf[n + 2..] == before[n + 1..][1..];
      return true, n;
    }

    /** The address that the first DT_DEBUG entry of the dynamic section holds, if all before it can be read. */
    method FindDebugBase(dynamicAddr: nat, rounds: nat) returns (r: Step)
      requires IndexFresh()
      ensures numMaps == 0 ==> r == if rounds > 0 then StepOutside else StepUnfinished
      ensures numMaps > 0 ==>
                && (r.NextAt? <==> exists k: nat :: k < rounds && DebugAt(View(), dynamicAddr, k))
                && (r.NextAt? ==> exists k: nat :: k < rounds && DebugAt(View(), dynamicAddr, k)
                                                   && Dyn(View(), EntryAt(dynamicAddr, k)).value.1 == r.addr)
                && (r.StepFailed? <==> exists k: nat :: k < rounds && UnreadableAt(View(), dynamicAddr, k))
                && (r.StepUnfinished? <==> NoDebugBefore(View(), dynamicAddr, rounds))
                && !r.StepOutside?
    {
      hide Read, IndexFresh, View, Dyn;
      FreshCount();
      ghost var v := View();
      var addr := dynamicAddr;
      var i := 0;
      while i < rounds
        invariant 0 <= i <= rounds && (i > 0 ==> numMaps > 0) && NoDebugBefore(v, dynamicAddr, i)
        invariant addr == EntryAt(dynamicAddr, i)
      {
        var dyn := CoreReadData(addr, 16);
        if dyn.NoArray? {
          return StepOutside;
        }
        DynRead(v, addr);
        if !dyn.Bytes? {
          assert UnreadableAt(v, dynamicAddr, i);
          return StepFailed;
        }
        if Word(dyn.bytes[..8]) == DT_DEBUG {
          assert DebugAt(v, dynamicAddr, i);
          return NextAt(Word(dyn.bytes[8..]));
        }
        addr := addr + DYN_SIZE;
        i := i + 1;
      }
      r := StepUnfinished;
    }

    /** The name of a library, in the buffer. */
    method ReadName(nameAddr: nat, libName: array<Byte>)
      requires IndexFresh() && numMaps > 0 && libName.Length > 0
      modifies libName
      ensures Named(View(), nameAddr, old(libName[..]), CString(libName[..]))
    {
      hide Read, IndexFresh, View;
      FreshCount();
      ghost var buf := libName[..];
      libName[0] := 0;
      if nameAddr == 0 {
        return;
      }
      // A name that cannot be read to its end is used as far as it was read.
      var ok, n := ReadString(nameAddr, libName);
      ghost var v := View();
      if ok {
        assert libName[..][..n] == libName[..n];
        assert forall i :: 0 <= i < n ==> libName[..][i] == libName[..n][i];
        CStringIs(libName[..], n);
      } else {
        assert n > 0 ==> libName[..][n..] == libName[n..] == buf[n..];
        assert libName[..][..n] == libName[..n];
        assert forall i :: 0 <= i < n ==> libName[..][i] == libName[..n][i];
        CStringFrom(libName[..], n);
        assert CutAt(v, nameAddr, buf, CString(libName[..]), n);
      }
    }

    /** The library of one link map, and the address of the next. */
    method ReadLibrary(linkMap: nat, disk: Disk, libName: array<Byte>) returns (r: Step, ghost round: Round)
      requires IndexFresh() && numMaps > 0 && libName.Length > 0
      modifies this`maps, this`numMaps, this`mapArray, mapArray, classShareMaps, libName
      ensures Valid() && Extends(maps, old(maps))
      ensures forall i :: 0 <= i < |mapArray| ==> mapArray[i] in old(mapArray) || fresh(mapArray[i])
      ensures numMaps >= old(numMaps) && !r.StepUnfinished?
      ensures round.linkMap == linkMap && round.before == old(View()) && round.buf == old(libName[..])
      ensures round.after.page > 0
      ensures Pointed(old(View()), linkMap).None? || Pointed(old(View()), linkMap + 8).None? ==> r.StepFailed? && maps == old(maps)
      ensures r.StepFailed? ==> RoundFails(round, disk)
      ensures r.StepOutside? ==> RoundLost(round, disk)
      ensures r.NextAt? ==> IndexFresh() && round.after == View() && RoundIs(round, disk)
      ensures r.NextAt? ==> Pointed(View(), linkMap + 24) == Some(r.addr)
      ensures r.NextAt? && !(round.name != [] && disk.open(round.name) >= 0 && disk.elf(disk.open(round.name)).Elf?) ==>
                maps == old(maps) && mapArray == old(mapArray)
    {
      hide Read, View, Word, CString, Pointed, Entered, Named, Infos, SortedByVaddr, Distinct, Refused, Lost;
      FreshCount();
      ghost var v := View();
      round := Round(linkMap, libName[..], [], v, v);
      var baseDiff, _ := ReadPointer(linkMap + LINK_MAP_ADDR_OFFSET);
      if baseDiff.None? {
        return StepFailed, round;
      }
      var nameAddr, _ := ReadPointer(linkMap + LINK_MAP_NAME_OFFSET);
      if nameAddr.None? {
        return StepFailed, round;
      }
      ReadName(nameAddr.value, libName);
      round := round.(name := CString(libName[..]));
      NameStarts(libName[..]);
      if libName[0] != 0 {
        var fd := disk.open(CString(libName[..]));
        if fd >= 0 && disk.elf(fd).Elf? {
          var lib := AddLibrary(fd, disk.elf(fd).segments, baseDiff.value);
          if !lib.LibOk? {
            return if lib.Conflict? then StepFailed else StepOutside, round;
          }
        }
      }
      round := round.(after := View());
      var next, _ := ReadPointer(linkMap + LINK_MAP_NEXT_OFFSET);
      r := if next.None? then StepFailed else NextAt(next.value);
    }

    method ReadLinkMaps(first: nat, disk: Disk, rounds: nat) returns (r: Step, ghost done: seq<Round>)
      requires IndexFresh() && numMaps > 0
      modifies this`maps, this`numMaps, this`mapArray, mapArray, classShareMaps
      ensures Valid() && Extends(maps, old(maps))
      ensures Chained(done, first, old(View()), disk)
      ensures r.NextAt? ==> r.addr == 0 && IndexFresh() && numMaps > 0
      ensures r.NextAt? ==> ComesNext(done, first, 0) && View() == ViewAfter(done, old(View()))
      ensures r.StepFailed? ==> ChainFails(done, first, old(View()), disk)
      ensures r.StepOutside? ==> ChainLost(done, first, old(View()), disk)
      ensures r.StepUnfinished? ==> |done| == rounds
    {
      hide Read, View, Valid, IndexFresh, Extends, Pointed, Chained, RoundIs, ComesNext, ViewAfter, RoundFails, RoundLost;
      FreshCount();
      ExtendsItself(maps);
      r, done := NextAt(first), [];
      ChainStarts(first, View(), disk);
      var libName := new Byte[BUF_SIZE];
      for k := 0 to rounds
        invariant IndexFresh() && Valid() && numMaps > 0 && Extends(maps, old(maps)) && r.NextAt?
        invariant classShareMaps == old(classShareMaps)
        invariant forall i :: 0 <= i < |mapArray| ==> mapArray[i] in old(mapArray) || fresh(mapArray[i])
        invariant |done| == k && Chained(done, first, old(View()), disk) && View() == ViewAfter(done, old(View()))
        invariant ComesNext(done, first, r.addr)
      {
        if r.addr == 0 {
          return;
        }
        ghost var before, round := maps, *;
        r, round := ReadLibrary(r.addr, disk, libName);
        ExtendsMore(maps, before, old(maps));
        if !r.NextAt? {
          assert Follows(round, done, first, old(View()));
          return;
        }
        ChainFurther(done, first, old(View()), disk, round, r.addr);
        done := done + [round];
      }
      if r.addr != 0 {
        r := StepUnfinished;
      }
    }

    /**
     The libraries of the debuggee, found by following its dynamic section and link map, for as
     many rounds of the two loops as given. Every read of the debuggee on the way demands a
     fresh index.
     */
    method ReadSharedLibInfo(dynamicAddr: nat, interpFd: int, disk: Disk, rounds: nat) returns (r: Step, ghost libs: Libraries)
      requires IndexFresh()
      modifies this`maps, this`numMaps, this`mapArray, mapArray, classShareMaps
      ensures Valid() && Extends(maps, old(maps))
      ensures r.NextAt? ==> r.addr == 0 && IndexFresh() && numMaps > 0
      ensures r.NextAt? ==> AllEntered(old(View()), View(), libs, dynamicAddr, interpFd, disk)
      ensures r.StepFailed? ==> TablesFail(old(View()), libs, dynamicAddr, interpFd, disk, rounds)
      ensures r.StepOutside? ==> TablesLost(old(View()), libs, dynamicAddr, interpFd, disk)
      ensures r.StepUnfinished? && old(numMaps) > 0 ==>
                || NoDebugBefore(old(View()), dynamicAddr, rounds)
                || (LinkerEntered(old(View()), libs, dynamicAddr, interpFd, disk) && |libs.rounds| == rounds)
    {
      hide Read, View, Valid, IndexFresh, Extends, Dyn, Pointed, Word, Entered, Chained, ComesNext, UnreadableAt, NoDebugBefore;
      hide Refused, Lost, ChainFails, ChainLost;
      FreshCount();
      ExtendsItself(maps);
      ghost var v := View();
      libs := Libraries(0, 0, 0, v, []);
      r := FindDebugBase(dynamicAddr, rounds);
      if !r.NextAt? {
        NoneIndexed();
        return;
      }
      var debug := r.addr;
      ghost var k: nat :| k < rounds && DebugAt(v, dynamicAddr, k) && Dyn(v, EntryAt(dynamicAddr, k)).value.1 == debug;
      libs := libs.(entry := k, debug := debug);
      var linkMap, _ := ReadPointer(debug + FIRST_LINK_MAP_OFFSET);
      if linkMap.None? {
        return StepFailed, libs;
      }
      var ldBase, _ := ReadPointer(debug + LD_BASE_OFFSET);
      if ldBase.None? || !disk.elf(interpFd).Elf? {
        return StepFailed, libs;
      }
      libs := libs.(first := linkMap.value);
      var lib := AddLibrary(interpFd, disk.elf(interpFd).segments, ldBase.value);
      if !lib.LibOk? {
        return if lib.Conflict? then StepFailed else StepOutside, libs;
      }
      assert classShareMaps == old(classShareMaps);
      ghost var loaded := View();
      ghost var before, done := maps, *;
      r, done := ReadLinkMaps(linkMap.value, disk, rounds);
      ExtendsMore(maps, before, old(maps));
      libs := libs.(loaded := loaded, rounds := done);
    }

    lemma NoneIndexed()
      requires IndexFresh()
      ensures numMaps == 0 ==> View().core == []
    {
    }

    method AddBoth(coreFd: int, coreSegments: seq<Segment>, execFd: int, execSegments: seq<Segment>)
      requires maps == [] && numMaps == 0 && Distinct(classShareMaps)
      modifies this`maps, this`numMaps
      ensures Distinct(maps + classShareMaps) && forall k :: 0 <= k < |maps| ==> fresh(maps[k])
      ensures numMaps == |maps| == |Loaded(coreSegments, true)| + |Loaded(execSegments, false)|
      ensures forall m :: m in Infos(maps) <==>
                            || m in FileEntries(coreFd, Loaded(coreSegments, true))
                            || m in FileEntries(execFd, Loaded(execSegments, false))
    {
      hide Loaded, Distinct, Infos, FileEntries;
      assert maps + classShareMaps == classShareMaps;
      AddSegments(coreFd, coreSegments, true);
      assert forall k :: 0 <= k < |maps| ==> fresh(maps[k]);
      ghost var first := maps;
      AddSegments(execFd, execSegments, false);
      ghost var second := maps[..|maps| - |first|];
      assert maps == second + first;
      ReversedMembers(first, coreFd, Loaded(coreSegments, true));
      ReversedMembers(second, execFd, Loaded(execSegments, false));
      JoinedInfos(second, first);
    }

    /** The mappings of the core file and of the executable. */
    method ReadFileSegments(coreFd: int, coreSegments: seq<Segment>, execFd: int, execSegments: seq<Segment>)
      requires maps == [] && numMaps == 0 && page > 0 && Distinct(classShareMaps)
      modifies this`maps, this`numMaps, this`mapArray
      ensures IndexFresh() && forall i :: 0 <= i < |mapArray| ==> fresh(mapArray[i])
      ensures numMaps == |Loaded(coreSegments, true)| + |Loaded(execSegments, false)|
      ensures forall m :: m in View().core <==>
                            || m in FileEntries(coreFd, Loaded(coreSegments, true))
                            || m in FileEntries(execFd, Loaded(execSegments, false))
    {
      hide Loaded, Distinct, FileEntries, SortedByVaddr;
      AddBoth(coreFd, coreSegments, execFd, execSegments);
      SortMapArray();
      InfosMembers(mapArray, maps);
      forall i | 0 <= i < |mapArray|
        ensures fresh(mapArray[i])
      {
        assert mapArray[i] in multiset(maps);
      }
    }

    /** One mapping for each read-only space; the index stays as it is. */
    method AddSpaces(fd: int, spaces: seq<Space>)
      requires IndexFresh() && classShareMaps == []
      modifies this`classShareMaps
      ensures IndexFresh() && Infos(classShareMaps) == Shared(spaces, fd)
    {
      hide Distinct, SortedByVaddr;
      assert spaces[..0] == [];
      for i := 0 to |spaces|
        invariant IndexFresh() && Infos(classShareMaps) == Shared(spaces[..i], fd)
      {
        var s := spaces[i];
        assert spaces[..i + 1][..i] == spaces[..i];
        if s.readOnly {
          ghost var before := classShareMaps;
          var m := AddClassShareMapInfo(fd, s.offset, s.base, s.used);
          DistinctInsert(maps, m, before);
          DistinctInsert(mapArray, m, before);
        }
      }
      assert spaces[..|spaces|] == spaces;
    }

    /** The flag that says whether the debuggee shares classes. */
    method ReadFlag(jvm: Libjvm) returns (r: Option<bool>)
      requires IndexFresh() && numMaps > 0 && jvm.Libjvm?
      ensures r == Some(true) <==> SharingOn(View(), jvm)
      ensures r == Some(false) <==> SharingOff(View(), jvm)
    {
      hide Read, IndexFresh, View;
      FreshCount();
      if jvm.flag == 0 {
        return None;
      }
      var flag := CoreReadData(jvm.flag, 1);
      if !flag.Bytes? {
        return None;
      }
      ReadIsOwned(View(), jvm.flag, 1);
      assert flag.bytes == [flag.bytes[0]];
      r := Some(flag.bytes[0] != 0);
    }

    /** The path of the archive, copied from the debuggee, if there is one. */
    method ReadArchivePath(jvm: Libjvm) returns (r: Option<seq<Byte>>)
      requires IndexFresh() && numMaps > 0 && jvm.Libjvm?
      ensures r.Some? ==> ArchiveNamed(View(), jvm, r.value)
      ensures r.None? ==> forall text :: !ArchiveNamed(View(), jvm, text)
    {
      hide Read, IndexFresh, View, TextAt, Word, Terminated;
      FreshCount();
      if jvm.pathPointer == 0 {
        return None;
      }
      var path, _ := ReadPointer(jvm.pathPointer);
      if path.None? {
        return None;
      }
      var name := new Byte[PATH_MAX];
      var read, n := ReadString(path.value, name);
      if !read {
        NotTerminated(View(), path.value, name[..n], PATH_MAX);
        return None;
      }
      TextIsName(path.value, name, n);
      IsTerminated(View(), path.value, name[..n], PATH_MAX);
      r := Some(CString(name[..]));
    }

    /**
     Adds the read-only spaces of the class-sharing archive, which the debuggee itself names. It
     has nothing to add if there is no libjvm.so or sharing is off, and otherwise succeeds exactly
     if the name can be read and leads to an archive of the right kind.
     */
    method InitClassSharing(jvm: Libjvm, archives: seq<Byte> -> Archive) returns (ok: bool)
      requires IndexFresh() && numMaps > 0 && classShareMaps == []
      modifies this`classShareMaps
      ensures IndexFresh()
      ensures ok <==>
                || SharingOff(old(View()), jvm)
                || (SharingOn(old(View()), jvm) && exists text :: ArchiveNamed(old(View()), jvm, text) && archives(text).Good())
      ensures SharingOff(old(View()), jvm) || !ok ==> classShareMaps == []
      ensures SharingOn(old(View()), jvm) && ok ==>
                exists text :: && ArchiveNamed(old(View()), jvm, text) && archives(text).Good()
                               && Infos(classShareMaps) == Shared(archives(text).spaces, archives(text).fd)
      ensures View() == old(View()).(share := Infos(classShareMaps))
    {
      hide Read, IndexFresh, View, ArchiveNamed, SharingOn, Shared, Infos;
      FreshCount();
      WithShare();
      ok := false;
      ghost var v := View();
      OnOrOff(v, jvm);
      if jvm.NoLibjvm? {
        return true;
      }
      hide SharingOff;
      var flag := ReadFlag(jvm);
      if flag == None {
        return;
      }
      if !flag.value {
        return true;
      }
      assert SharingOn(v, jvm) && !SharingOff(v, jvm);
      var name := ReadArchivePath(jvm);
      assert View() == v;
      if name.None? {
        return;
      }
      OneName(v, jvm, name.value);
      var archive := archives(name.value);
      if !archive.Archive? || archive.magic != ARCHIVE_MAGIC || archive.version != ARCHIVE_VERSION {
        return;
      }
      AddSpaces(archive.fd, archive.spaces);
      WithShare();
      ok := true;
    }

    lemma WithShare()
      ensures View() == CoreImage.View(Infos(mapArray), Infos(classShareMaps), files, page)
    {
    }

    lemma TextIsName(addr: nat, name: array<Byte>, n: nat)
      requires page > 0 && n < name.Length && name[n] == 0 && TextAt(View(), addr, name[..n])
      ensures CString(name[..]) == name[..n]
    {
      hide Read, View;
      assert name[..][..n] == name[..n];
      assert forall i :: 0 <= i < n ==> name[..][i] == name[..n][i];
      CStringIs(name[..], n);
    }

    /**
     Opening a core dump: the mappings of the core file and of the executable, then those of the
     libraries, then those of the class-sharing archive. The result is an index ready for reading.
     */
    method GrabCore(coreFd: int, coreSegments: seq<Segment>, execFd: int, execSegments: seq<Segment>,
                    dynamicAddr: nat, interpFd: int, disk: Disk, rounds: nat,
                    jvm: Libjvm, archives: seq<Byte> -> Archive)
      returns (r: Step, ghost fromFiles: View, ghost loaded: View, ghost libs: Libraries)
      requires maps == [] && numMaps == 0 && classShareMaps == [] && page > 0
      modifies this
      ensures Valid()
      ensures r.NextAt? ==> IndexFresh() && numMaps > 0
      ensures r.NextAt? ==>
                && fromFiles.page > 0 && (forall m :: m in fromFiles.core <==>
                                         || m in FileEntries(coreFd, Loaded(coreSegments, true))
                                         || m in FileEntries(execFd, Loaded(execSegments, false)))
                && AllEntered(fromFiles, loaded, libs, dynamicAddr, interpFd, disk)
                && (forall m :: m in View().core <==> m in loaded.core)
      ensures r.NextAt? ==> ArchiveIn(View(), jvm, archives)
      ensures r.StepFailed? ==>
                && fromFiles.page > 0
                && (|| TablesFail(fromFiles, libs, dynamicAddr, interpFd, disk, rounds)
                    || (AllEntered(fromFiles, loaded, libs, dynamicAddr, interpFd, disk)
                        && NoArchive(View(), jvm, archives)))
      ensures r.StepOutside? ==> fromFiles.page > 0 && TablesLost(fromFiles, libs, dynamicAddr, interpFd, disk)
    {
      hide Read, View, Valid, IndexFresh, AllEntered, Extends, ArchiveIn, Loaded, FileEntries, Infos, TablesFail, TablesLost;
      libs, fromFiles, loaded := Libraries(0, 0, 0, View(), []), View(), View();
      ReadFileSegments(coreFd, coreSegments, execFd, execSegments);
      fromFiles := View();
      r, libs := ReadSharedLibInfo(dynamicAddr, interpFd, disk, rounds);
      if r.NextAt? {
        loaded := View();
        SortAgain();
        ghost var bare := View();
        WithShare();
        var ok := InitClassSharing(jvm, archives);
        FreshCount();
        if ok {
          IsArchiveIn(bare, View(), jvm, archives);
        } else {
          r := StepFailed;
        }
      }
    }

    /** Another sort of the same entries. */
    method SortAgain()
      requires IndexFresh()
      modifies this`mapArray
      ensures IndexFresh() && forall m :: m in View().core <==> m in old(View()).core
    {
      hide Distinct, SortedByVaddr;
      InfosMembers(mapArray, maps);
      SortMapArray();
      InfosMembers(mapArray, maps);
    }

    method AddFileEntry(fd: int, s: Segment)
      requires numMaps == |maps| && Distinct(maps + classShareMaps)
      modifies this`maps, this`numMaps
      ensures Distinct(maps + classShareMaps) && numMaps == |maps|
      ensures |maps| == |old(maps)| + 1 && maps[1..] == old(maps)
      ensures fresh(maps[0]) && maps[0].Info() == Mapping(fd, s.offset, s.vaddr, s.filesz)
    {
      var m := AddMapInfo(fd, s.offset, s.vaddr, s.filesz);
      assert maps + classShareMaps == [m] + (old(maps) + classShareMaps);
    }

    /** One entry for each loaded segment of the file, newest first. */
    method AddSegments(fd: int, segments: seq<Segment>, writable: bool)
      requires numMaps == |maps| && Distinct(maps + classShareMaps)
      modifies this`maps, this`numMaps
      ensures Distinct(maps + classShareMaps)
      ensures numMaps == |maps| == old(numMaps) + |Loaded(segments, writable)| && Extends(maps, old(maps))
      ensures var n := |Loaded(segments, writable)|;
              forall k :: 0 <= k < n ==>
                var s := Loaded(segments, writable)[n - 1 - k];
                fresh(maps[k]) && maps[k].Info() == Mapping(fd, s.offset, s.vaddr, s.filesz)
    {
      hide Distinct;
      ghost var loaded: seq<Segment> := [];
      assert segments[..0] == [];
      for i := 0 to |segments|
        invariant loaded == Loaded(segments[..i], writable) && Distinct(maps + classShareMaps)
        invariant numMaps == |maps| == old(numMaps) + |loaded| && Extends(maps, old(maps))
        invariant forall k :: 0 <= k < |loaded| ==>
                    var s := loaded[|loaded| - 1 - k];
                    fresh(maps[k]) && maps[k].Info() == Mapping(fd, s.offset, s.vaddr, s.filesz)
      {
        var s := segments[i];
        assert segments[..i + 1][..i] == segments[..i];
        if s.load && s.filesz != 0 && (writable || !s.writable) {
          AddFileEntry(fd, s);
          loaded := loaded + [s];
        }
      }
      assert segments[..|segments|] == segments;
    }
  }
}
