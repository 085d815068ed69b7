/**
 The address space recorded in a core dump, on values: which mapping an address belongs to,
 and what a read of a range delivers.
 */
module CoreImage {
  import opened Common

  type Byte = b: nat | b < 256

  datatype Mapping = Mapping(fd: int, offset: nat, vaddr: nat, memsz: nat) {
    predicate Covers(addr: int) { vaddr <= addr < vaddr + memsz }
  }

  /** The sorted core mappings, the class-sharing mappings in list order, and the open files. */
  datatype View = View(core: seq<Mapping>, share: seq<Mapping>, files: map<int, seq<Byte>>, page: nat)

  // ----- Lookup, as a linear scan -----

  /** Index of the last mapping that starts at or below addr, or -1. */
  function LastAtOrBelow(core: seq<Mapping>, addr: int): (k: int)
    ensures -1 <= k < |core|
  {
    if core == [] then -1
    else if core[|core| - 1].vaddr <= addr then |core| - 1
    else LastAtOrBelow(core[..|core| - 1], addr)
  }

  function FirstCovering(share: seq<Mapping>, addr: int): Option<Mapping> {
    if share == [] then None
    else if share[0].Covers(addr) then Some(share[0])
    else FirstCovering(share[1..], addr)
  }

  function Lookup(v: View, addr: int): Option<Mapping> {
    var k := LastAtOrBelow(v.core, addr);
    if k >= 0 && v.core[k].Covers(addr) then Some(v.core[k]) else FirstCovering(v.share, addr)
  }

  ghost predicate Sorted(core: seq<Mapping>) {
    forall i, j :: 0 <= i < j < |core| ==> core[i].vaddr <= core[j].vaddr
  }

  /** Non-empty and without overlap. An empty mapping inside another would hide it. */
  ghost predicate Disjoint(core: seq<Mapping>) {
    && (forall i :: 0 <= i < |core| ==> core[i].memsz > 0)
    && (forall i, j :: 0 <= i < j < |core| ==> core[i].vaddr + core[i].memsz <= core[j].vaddr)
  }

  lemma {:induction false} LastAtOrBelowIs(core: seq<Mapping>, addr: int, k: int)
    requires Sorted(core) && -1 <= k < |core|
    requires k >= 0 ==> core[k].vaddr <= addr
    requires k + 1 < |core| ==> addr < core[k + 1].vaddr
    ensures LastAtOrBelow(core, addr) == k
  {
    if |core| > k + 1 {
      var last := |core| - 1;
      assert core[k + 1].vaddr <= core[last].vaddr;
      LastAtOrBelowIs(core[..last], addr, k);
    }
  }

  lemma {:induction false} AboveLast(core: seq<Mapping>, addr: int, i: int)
    requires LastAtOrBelow(core, addr) < i < |core|
    ensures addr < core[i].vaddr
  {
    if i < |core| - 1 {
      AboveLast(core[..|core| - 1], addr, i);
    }
  }

  lemma {:induction false} AtOrBelowLast(core: seq<Mapping>, addr: int)
    requires LastAtOrBelow(core, addr) >= 0
    ensures core[LastAtOrBelow(core, addr)].vaddr <= addr
  {
    if core[|core| - 1].vaddr > addr {
      AtOrBelowLast(core[..|core| - 1], addr);
    }
  }

  /**
   On a sorted disjoint array the lookup finds the core mapping that contains the address
   whenever there is one; only otherwise does a class-sharing mapping come in.
   */
  lemma LookupFindsCore(v: View, addr: int, i: int)
    requires Sorted(v.core) && Disjoint(v.core)
    requires 0 <= i < |v.core| && v.core[i].Covers(addr)
    ensures Lookup(v, addr) == Some(v.core[i])
  {
    var k := LastAtOrBelow(v.core, addr);
    if k < i {
      AboveLast(v.core, addr, i);
    }
    if i < k {
      AtOrBelowLast(v.core, addr);
    }
  }

  lemma {:induction false} FirstCoveringMeans(share: seq<Mapping>, addr: int)
    ensures FirstCovering(share, addr).None? <==> forall i :: 0 <= i < |share| ==> !share[i].Covers(addr)
    ensures FirstCovering(share, addr).Some? ==>
              exists i :: 0 <= i < |share| && share[i].Covers(addr) && FirstCovering(share, addr) == Some(share[i])
                          && forall j :: 0 <= j < i ==> !share[j].Covers(addr)
  {
    if share != [] && !share[0].Covers(addr) {
      FirstCoveringMeans(share[1..], addr);
      if FirstCovering(share[1..], addr).Some? {
        var i :| 0 <= i < |share[1..]| && share[1..][i].Covers(addr)
                 && FirstCovering(share[1..], addr) == Some(share[1..][i])
                 && forall j :: 0 <= j < i ==> !share[1..][j].Covers(addr);
        assert share[i + 1].Covers(addr);
        assert forall j :: 0 <= j < i + 1 ==> j == 0 || share[j] == share[1..][j - 1];
      }
    }
  }

  lemma LookupCovers(v: View, addr: int)
    ensures Lookup(v, addr).Some? ==> Lookup(v, addr).value.Covers(addr)
                                      && (Lookup(v, addr).value in v.core || Lookup(v, addr).value in v.share)
    ensures (forall i :: 0 <= i < |v.core| ==> !v.core[i].Covers(addr)) ==>
              Lookup(v, addr) == FirstCovering(v.share, addr)
  {
    FirstCoveringMeans(v.share, addr);
  }

  // ----- Reading -----

  /** A positioned read: what the file holds there, possibly less than asked for. */
  function Pread(files: map<int, seq<Byte>>, fd: int, len: nat, off: nat): (r: seq<Byte>)
    ensures |r| <= len
  {
    if fd !in files || off >= |files[fd]| then []
    else if off + len <= |files[fd]| then files[fd][off..off + len]
    else files[fd][off..]
  }

  function Min(x: nat, y: nat): nat { if x < y then x else y }

  /** Bytes to zero-fill after a mapping that ends inside a page. */
  function Padding(m: Mapping, page: nat): nat
    requires page > 0
  {
    if m.memsz % page > 0 then page - m.memsz % page else 0
  }

  /** Delivered bytes of the mapping at addr, then zeros up to its page end, then the rest. */
  function Read(v: View, addr: nat, size: nat): Option<seq<Byte>>
    requires v.page > 0
    decreases size
  {
    if size == 0 then Some([])
    else match Lookup(v, addr)
      case None => None
      case Some(m) =>
        LookupCovers(v, addr);
        var data := Pread(v.files, m.fd, Min(size, m.vaddr + m.memsz - addr), m.offset + (addr - m.vaddr));
        if data == [] then None
        else
          var pad := Min(size - |data|, Padding(m, v.page));
          match Read(v, addr + |data| + pad, size - |data| - pad)
          case None => None
          case Some(rest) => Some(data + Repeat<Byte>(0, pad) + rest)
  }

  // ----- What a read means -----

  /** The end of the pages that a mapping needs, counted from its start. */
  function PageEnd(m: Mapping, page: nat): nat
    requires page > 0
  {
    m.vaddr + RoundUp(m.memsz, page)
  }

  /** The padding ends at the next multiple of the page size, and is less than a page. */
  lemma PaddingIs(m: Mapping, page: nat)
    requires page > 0
    ensures (m.memsz + Padding(m, page)) % page == 0 && Padding(m, page) < page
    ensures PageEnd(m, page) == m.vaddr + m.memsz + Padding(m, page)
  {
    var q, r := m.memsz / page, m.memsz % page;
    assert m.memsz == page * q + r;
    if r > 0 {
      assert page * (q + 1) == page * q + page;
      DivModUnique(m.memsz + Padding(m, page), page, q + 1, 0);
    }
    RoundUpIsMultiple(m.memsz, page);
    var x, y := m.memsz + Padding(m, page), RoundUp(m.memsz, page);
    hide RoundUp, Padding;
    if x <= y {
      SameMultiple(x, y, page);
    } else {
      SameMultiple(y, x, page);
    }
  }

  /** Counting on from the mapping's size, no page boundary is met up to address a. */
  ghost predicate SamePage(m: Mapping, page: nat, a: int)
    requires page > 0
  {
    forall e :: m.memsz <= e <= a - m.vaddr ==> e % page != 0
  }

  lemma LastPage(m: Mapping, page: nat, a: int)
    requires page > 0 && m.vaddr + m.memsz <= a
    ensures a < m.vaddr + m.memsz + Padding(m, page) <==> SamePage(m, page, a)
  {
    PaddingIs(m, page);
    var end := m.memsz + Padding(m, page);
    hide Padding;
    if a < m.vaddr + end {
      forall e | m.memsz <= e <= a - m.vaddr
        ensures e % page != 0
      {
        if e % page == 0 {
          SameMultiple(e, end, page);
        }
      }
    } else {
      assert end % page == 0 && m.memsz <= end <= a - m.vaddr;
    }
  }

  ghost predicate Mapped(v: View, m: Mapping) { m in v.core || m in v.share }

  predicate Backed(v: View, m: Mapping) {
    m.fd in v.files && m.offset + m.memsz <= |v.files[m.fd]|
  }

  ghost predicate Apart(v: View, m: Mapping, n: Mapping)
    requires v.page > 0
  {
    PageEnd(m, v.page) <= n.vaddr || PageEnd(n, v.page) <= m.vaddr
  }

  /**
   What the loader relies on: mappings are non-empty, start on a page, are backed by their
   file, and no two share a page, class-sharing ones included.
   */
  ghost predicate WellFormed(v: View) {
    && v.page > 0 && Sorted(v.core) && Disjoint(v.core)
    && (forall m :: Mapped(v, m) ==> m.vaddr % v.page == 0 && m.memsz > 0 && Backed(v, m))
    && (forall m, n :: Mapped(v, m) && Mapped(v, n) && m != n ==> Apart(v, m, n))
  }

  function FileByte(v: View, m: Mapping, a: int): Byte
    requires m.Covers(a) && Backed(v, m)
  {
    v.files[m.fd][m.offset + (a - m.vaddr)]
  }

  /** The mapping that contains an address is the one the lookup returns. */
  lemma OwnerFound(v: View, m: Mapping, a: int)
    requires WellFormed(v) && Mapped(v, m) && m.Covers(a)
    ensures Lookup(v, a) == Some(m)
  {
    if m in v.core {
      var i :| 0 <= i < |v.core| && v.core[i] == m;
      LookupFindsCore(v, a, i);
    } else {
      var i :| 0 <= i < |v.share| && v.share[i] == m;
      FirstCoveringMeans(v.share, a);
      LookupCovers(v, a);
      var r := Lookup(v, a).value;
      assert Mapped(v, r);
      assert r != m ==> Apart(v, r, m);
    }
  }

  ghost predicate InMapping(v: View, a: int) {
    exists m :: Mapped(v, m) && m.Covers(a)
  }

  /** Past the end of a mapping, in its last page, for a read that began before the end. */
  ghost predicate PaddingOf(v: View, m: Mapping, start: int, a: int)
    requires v.page > 0
  {
    Mapped(v, m) && start < m.vaddr + m.memsz <= a && SamePage(m, v.page, a)
  }

  ghost predicate InPadding(v: View, start: int, a: int)
    requires v.page > 0
  {
    exists m :: PaddingOf(v, m, start, a)
  }

  /** The right byte for address a in a read that began at start. */
  ghost predicate Delivers(v: View, start: int, a: int, b: Byte)
    requires WellFormed(v)
  {
    || (exists m :: Mapped(v, m) && m.Covers(a) && b == FileByte(v, m, a))
    || (InPadding(v, start, a) && b == 0)
  }

  lemma DeliversEarlier(v: View, start: int, start': int, a: int, b: Byte)
    requires WellFormed(v) && start <= start' && Delivers(v, start', a, b)
    ensures Delivers(v, start, a, b)
  {
    if InPadding(v, start', a) {
      var m :| PaddingOf(v, m, start', a);
      assert PaddingOf(v, m, start, a);
    }
  }

  /** How far one step at addr gets: to the end of the mapping, or of the request. */
  function StepLength(m: Mapping, addr: nat, size: nat): nat
    requires m.Covers(addr)
  {
    Min(size, m.vaddr + m.memsz - addr)
  }

  function StepPadding(v: View, m: Mapping, addr: nat, size: nat): nat
    requires m.Covers(addr) && v.page > 0
  {
    Min(size - StepLength(m, addr, size), Padding(m, v.page))
  }

  function MappedBytes(v: View, m: Mapping, addr: nat, len: nat): (r: seq<Byte>)
    requires m.Covers(addr) && Backed(v, m) && addr + len <= m.vaddr + m.memsz
    ensures |r| == len
    ensures forall i :: 0 <= i < len ==> r[i] == FileByte(v, m, addr + i)
  {
    var off := m.offset + (addr - m.vaddr);
    v.files[m.fd][off..off + len]
  }

  /** One step of a read, when reads are never short. */
  lemma ReadStep(v: View, m: Mapping, addr: nat, size: nat)
    requires WellFormed(v) && size > 0 && Mapped(v, m) && m.Covers(addr) && Backed(v, m)
    requires Lookup(v, addr) == Some(m)
    ensures var len, pad := StepLength(m, addr, size), StepPadding(v, m, addr, size);
            var next := Read(v, addr + len + pad, size - len - pad);
            && len > 0
            && (next.None? ==> Read(v, addr, size).None?)
            && (next.Some? ==>
                  Read(v, addr, size) == Some(MappedBytes(v, m, addr, len) + Repeat<Byte>(0, pad) + next.value))
  {
    PagePositive(v);
    hide WellFormed, Lookup, Padding, Mapped, Repeat, RoundUp, PageEnd, Read, Pread, MappedBytes;
    PreadWhole(v, m, addr, StepLength(m, addr, size));
    OwnersUnfold(v, addr, size, m);
  }

  lemma PreadWhole(v: View, m: Mapping, addr: nat, len: nat)
    requires m.Covers(addr) && Backed(v, m) && addr + len <= m.vaddr + m.memsz
    ensures Pread(v.files, m.fd, len, m.offset + (addr - m.vaddr)) == MappedBytes(v, m, addr, len)
  {
  }

  lemma LookupOwner(v: View, addr: nat)
    requires WellFormed(v) && Lookup(v, addr).Some?
    ensures var m := Lookup(v, addr).value;
            Mapped(v, m) && m.Covers(addr) && Backed(v, m)
  {
    LookupCovers(v, addr);
  }

  lemma NoLookupNoRead(v: View, addr: nat, size: nat)
    requires v.page > 0 && size > 0 && Lookup(v, addr).None?
    ensures Read(v, addr, size).None?
  {
  }

  /** Every delivered byte is the byte of its mapping, or a zero of a final partial page. */
  lemma {:induction false} ReadDelivers(v: View, addr: nat, size: nat)
    requires WellFormed(v) && Read(v, addr, size).Some?
    ensures var bytes := Read(v, addr, size).value;
            && |bytes| == size
            && forall i :: 0 <= i < size ==> Delivers(v, addr, addr + i, bytes[i])
    decreases size
  {
    hide WellFormed, Lookup, Read, FileByte, Delivers, Padding, Mapped, Backed;
    PagePositive(v);
    if size == 0 {
      ReadNothing(v, addr);
    } else {
      if Lookup(v, addr).None? {
        NoLookupNoRead(v, addr, size);
      }
      var m := Lookup(v, addr).value;
      LookupOwner(v, addr);
      ReadStep(v, m, addr, size);
      var len, pad := StepLength(m, addr, size), StepPadding(v, m, addr, size);
      var next := addr + len + pad;
      ReadDelivers(v, next, size - len - pad);
      JoinDelivers(v, m, addr, len, pad, Read(v, next, size - len - pad).value);
    }
  }

  lemma ReadNothing(v: View, addr: nat)
    requires v.page > 0
    ensures Read(v, addr, 0) == Some([])
  {
  }

  lemma JoinDelivers(v: View, m: Mapping, addr: nat, len: nat, pad: nat, rest: seq<Byte>)
    requires WellFormed(v) && Mapped(v, m) && m.Covers(addr) && Backed(v, m)
    requires addr + len <= m.vaddr + m.memsz && pad <= Padding(m, v.page)
    requires pad > 0 ==> addr + len == m.vaddr + m.memsz
    requires forall i :: 0 <= i < |rest| ==> Delivers(v, addr + len + pad, addr + len + pad + i, rest[i])
    ensures var bytes := MappedBytes(v, m, addr, len) + Repeat<Byte>(0, pad) + rest;
            && |bytes| == len + pad + |rest|
            && forall i :: 0 <= i < |bytes| ==> Delivers(v, addr, addr + i, bytes[i])
  {
    hide WellFormed, FileByte, Delivers, Padding, Mapped, Backed, MappedBytes, Repeat;
    PagePositive(v);
    var bytes := MappedBytes(v, m, addr, len) + Repeat<Byte>(0, pad) + rest;
    forall i | 0 <= i < |bytes|
      ensures Delivers(v, addr, addr + i, bytes[i])
    {
      if i < len {
        DeliversFile(v, addr, m, addr + i);
      } else if i < len + pad {
        LastPage(m, v.page, addr + i);
        DeliversZero(v, addr, m, addr + i);
      } else {
        var j := i - len - pad;
        assert bytes[i] == rest[j];
        assert Delivers(v, addr + len + pad, addr + len + pad + j, rest[j]);
        DeliversEarlier(v, addr, addr + len + pad, addr + i, rest[j]);
      }
    }
  }

  lemma PagePositive(v: View)
    requires WellFormed(v)
    ensures v.page > 0
  {
  }

  lemma DeliversFile(v: View, start: int, m: Mapping, a: int)
    requires WellFormed(v) && Mapped(v, m) && m.Covers(a) && Backed(v, m)
    ensures Delivers(v, start, a, FileByte(v, m, a))
  {
  }

  lemma DeliversZero(v: View, start: int, m: Mapping, a: int)
    requires WellFormed(v) && PaddingOf(v, m, start, a)
    ensures Delivers(v, start, a, 0)
  {
  }

  /** The condition for success, in terms of the mappings alone. */
  ghost predicate AllReadable(v: View, addr: nat, size: nat)
    requires v.page > 0
  {
    forall a :: addr <= a < addr + size ==> InMapping(v, a) || InPadding(v, addr, a)
  }

  lemma PaddingBeyond(v: View, m: Mapping, n: Mapping, addr: int, next: int, a: int)
    requires WellFormed(v) && Mapped(v, m) && m.Covers(addr) && next == PageEnd(m, v.page) <= a
    requires PaddingOf(v, n, addr, a)
    ensures PaddingOf(v, n, next, a)
  {
    PaddingIs(m, v.page);
    PaddingIs(n, v.page);
    LastPage(n, v.page, a);
    hide Padding, SamePage;
    assert n != m;
    assert Apart(v, m, n);
  }

  lemma ReadableBeyond(v: View, m: Mapping, addr: nat, size: nat, next: nat)
    requires WellFormed(v) && AllReadable(v, addr, size) && Mapped(v, m) && m.Covers(addr)
    requires addr <= next == PageEnd(m, v.page) <= addr + size
    ensures AllReadable(v, next, addr + size - next)
  {
    hide WellFormed, Mapped, Padding;
    PagePositive(v);
    forall a | next <= a < addr + size
      ensures InMapping(v, a) || InPadding(v, next, a)
    {
      if !InMapping(v, a) {
        var n :| PaddingOf(v, n, addr, a);
        PaddingBeyond(v, m, n, addr, next, a);
      }
    }
  }

  lemma FirstReadable(v: View, addr: nat, size: nat) returns (m: Mapping)
    requires WellFormed(v) && AllReadable(v, addr, size) && size > 0
    ensures Mapped(v, m) && m.Covers(addr) && Backed(v, m) && Lookup(v, addr) == Some(m)
  {
    assert InMapping(v, addr) || InPadding(v, addr, addr);
    m :| Mapped(v, m) && m.Covers(addr);
    OwnerFound(v, m, addr);
  }

  lemma {:induction false} ReadableIsRead(v: View, addr: nat, size: nat)
    requires WellFormed(v) && AllReadable(v, addr, size)
    ensures Read(v, addr, size).Some?
    decreases size
  {
    hide WellFormed, Lookup, Read, Padding, Backed, Mapped, AllReadable;
    PagePositive(v);
    if size == 0 {
      ReadNothing(v, addr);
    } else {
      var m := FirstReadable(v, addr, size);
      ReadStep(v, m, addr, size);
      var next := addr + StepLength(m, addr, size) + StepPadding(v, m, addr, size);
      PaddingIs(m, v.page);
      if next < addr + size {
        ReadableBeyond(v, m, addr, size, next);
        ReadableIsRead(v, next, addr + size - next);
      } else {
        ReadNothing(v, next);
      }
    }
  }

  /**
   A read of a range succeeds exactly when each of its addresses is mapped, or lies in the
   final partial page of a mapping the read has come through.
   */
  lemma ReadSucceeds(v: View, addr: nat, size: nat)
    requires WellFormed(v)
    ensures Read(v, addr, size).Some? <==> AllReadable(v, addr, size)
  {
    if AllReadable(v, addr, size) {
      ReadableIsRead(v, addr, size);
    }
    if Read(v, addr, size).Some? {
      ReadDelivers(v, addr, size);
      var bytes := Read(v, addr, size).value;
      forall a | addr <= a < addr + size
        ensures InMapping(v, a) || InPadding(v, addr, a)
      {
        assert Delivers(v, addr, addr + (a - addr), bytes[a - addr]);
      }
    }
  }

  // ----- Mappings that overlap, and zeros that fall on others -----

  /** The end of what the file holds of a mapping; a read gets no further. */
  function HeldEnd(v: View, m: Mapping): nat {
    if m.fd !in v.files || |v.files[m.fd]| <= m.offset then m.vaddr
    else m.vaddr + Min(m.memsz, |v.files[m.fd]| - m.offset)
  }

  /** Class-sharing mapping j is what the lookup finds at a. */
  ghost predicate Serves(v: View, j: nat, a: int) {
    && j < |v.share| && v.share[j].Covers(a)
    && (forall i :: 0 <= i < |v.core| ==> !v.core[i].Covers(a))
    && (forall k :: 0 <= k < j ==> !v.share[k].Covers(a))
  }

  /** Further on in mapping j, where it is still read, something starts that the lookup prefers. */
  ghost predicate Intruded(v: View, j: nat, a: int)
    requires j < |v.share|
  {
    || (exists i :: 0 <= i < |v.core| && a < v.core[i].vaddr < HeldEnd(v, v.share[j]))
    || (exists k :: 0 <= k < j && v.share[k].memsz > 0 && a < v.share[k].vaddr < HeldEnd(v, v.share[j]))
  }

  ghost predicate NoIntrusion(v: View) {
    forall j: nat, a: int :: Serves(v, j, a) ==> !Intruded(v, j, a)
  }

  /** The zeros delivered after mapping m fall on addresses of mapping n. */
  predicate PadsOver(v: View, m: Mapping, n: Mapping)
    requires v.page > 0
  {
    && n.memsz > 0 && Padding(m, v.page) > 0
    && n.vaddr < HeldEnd(v, m) + Padding(m, v.page) && HeldEnd(v, m) < n.vaddr + n.memsz
  }

  /** Some read gets bytes from mapping m. */
  ghost predicate IsRead(v: View, m: Mapping) {
    || (m in v.core && m.vaddr < HeldEnd(v, m))
    || (exists j: nat, a: int :: Serves(v, j, a) && v.share[j] == m && a < HeldEnd(v, m))
  }

  ghost predicate NoPaddingOver(v: View)
    requires v.page > 0
  {
    forall m, n :: IsRead(v, m) && Mapped(v, n) ==> !PadsOver(v, m, n)
  }

  /**
   A step of a read that starts at a: as far as the file goes its mapping is also the one found,
   and where the zeros go there is none.
   */
  ghost predicate StepAgrees(v: View, a: int)
    requires v.page > 0
  {
    var r := Lookup(v, a);
    r.Some? && a < HeldEnd(v, r.value) ==>
      && (forall b :: a <= b < HeldEnd(v, r.value) ==> Lookup(v, b) == r)
      && (forall b :: HeldEnd(v, r.value) <= b < HeldEnd(v, r.value) + Padding(r.value, v.page) ==> Lookup(v, b) == None)
  }

  lemma {:induction false} FirstCoveringIs(share: seq<Mapping>, a: int, j: nat)
    requires j < |share| && share[j].Covers(a) && forall k :: 0 <= k < j ==> !share[k].Covers(a)
    ensures FirstCovering(share, a) == Some(share[j])
  {
    if j > 0 {
      FirstCoveringIs(share[1..], a, j - 1);
    }
  }

  lemma ServesIsFound(v: View, j: nat, a: int)
    requires Serves(v, j, a)
    ensures Lookup(v, a) == Some(v.share[j])
  {
    FirstCoveringIs(v.share, a, j);
    LookupCovers(v, a);
  }

  lemma FoundInShare(v: View, a: int) returns (j: nat)
    requires Lookup(v, a).Some? && forall i :: 0 <= i < |v.core| ==> !v.core[i].Covers(a)
    ensures Serves(v, j, a) && Lookup(v, a) == Some(v.share[j])
  {
    LookupCovers(v, a);
    FirstCoveringMeans(v.share, a);
    j :| 0 <= j < |v.share| && v.share[j].Covers(a) && FirstCovering(v.share, a) == Some(v.share[j])
         && forall k :: 0 <= k < j ==> !v.share[k].Covers(a);
  }

  /** Without intrusion mapping j serves on to its end. */
  lemma ServesOn(v: View, j: nat, a: int, b: int)
    requires Serves(v, j, a) && !Intruded(v, j, a) && a <= b < HeldEnd(v, v.share[j])
    ensures Serves(v, j, b)
  {
  }

  /** With one, the intruder is found where it starts. */
  lemma IntruderFound(v: View, j: nat, a: int)
    requires v.page > 0 && Sorted(v.core) && Disjoint(v.core) && Serves(v, j, a) && Intruded(v, j, a)
    ensures !StepAgrees(v, a)
  {
    ServesIsFound(v, j, a);
    if i :| 0 <= i < |v.core| && a < v.core[i].vaddr < HeldEnd(v, v.share[j]) {
      LookupFindsCore(v, v.core[i].vaddr, i);
    } else {
      var k :| 0 <= k < j && v.share[k].memsz > 0 && a < v.share[k].vaddr < HeldEnd(v, v.share[j]);
      var b := v.share[k].vaddr;
      assert v.share[k].Covers(b);
      NotFoundAgain(v, j, a, k, b);
    }
  }

  lemma NotFoundAgain(v: View, j: nat, a: int, k: nat, b: int)
    requires Serves(v, j, a) && k < j && v.share[k].Covers(b)
    ensures Lookup(v, b) != Some(v.share[j])
  {
    FirstCoveringMeans(v.share, b);
  }

  /** An address of some mapping is found in some mapping. */
  lemma MappedIsFound(v: View, n: Mapping, b: int)
    requires Sorted(v.core) && Disjoint(v.core) && Mapped(v, n) && n.Covers(b)
    ensures Lookup(v, b).Some?
  {
    if i :| 0 <= i < |v.core| && v.core[i].Covers(b) {
      LookupFindsCore(v, b, i);
    } else {
      LookupCovers(v, b);
      FirstCoveringMeans(v.share, b);
    }
  }

  /** A mapping that is read is found at an address from which its bytes can be read. */
  lemma ReadIsFound(v: View, m: Mapping) returns (a: nat)
    requires Sorted(v.core) && Disjoint(v.core) && IsRead(v, m)
    ensures Lookup(v, a) == Some(m) && a < HeldEnd(v, m)
  {
    if m in v.core && m.vaddr < HeldEnd(v, m) {
      var i :| 0 <= i < |v.core| && v.core[i] == m;
      LookupFindsCore(v, m.vaddr, i);
      a := m.vaddr;
    } else {
      var j: nat, b: int :| Serves(v, j, b) && v.share[j] == m && b < HeldEnd(v, m);
      ServesIsFound(v, j, b);
      a := b;
    }
  }

  lemma PaddedFound(v: View, m: Mapping, n: Mapping)
    requires v.page > 0 && Sorted(v.core) && Disjoint(v.core)
    requires IsRead(v, m) && Mapped(v, n) && PadsOver(v, m, n)
    ensures exists a: nat :: !StepAgrees(v, a)
  {
    var a := ReadIsFound(v, m);
    var b := if n.vaddr < HeldEnd(v, m) then HeldEnd(v, m) else n.vaddr;
    assert n.Covers(b);
    MappedIsFound(v, n, b);
    assert !StepAgrees(v, a);
  }

  /**
   Every step of every read agrees with the lookup, exactly if no class-sharing mapping, from an
   address it serves, is read over the start of a core mapping or of an earlier class-sharing
   mapping, and no mapping's padding falls on another mapping.
   */
  lemma StepsAgree(v: View)
    requires v.page > 0 && Sorted(v.core) && Disjoint(v.core)
    ensures (forall a: nat :: StepAgrees(v, a)) <==> NoIntrusion(v) && NoPaddingOver(v)
  {
    hide StepAgrees, PadsOver, Sorted, Disjoint, Intruded;
    if NoIntrusion(v) && NoPaddingOver(v) {
      forall a: nat
        ensures StepAgrees(v, a)
      {
        StepOfCoreOrShare(v, a);
      }
    }
    if !NoIntrusion(v) {
      var j: nat, a: int :| Serves(v, j, a) && Intruded(v, j, a);
      IntruderFound(v, j, a);
      var b: nat := a;
      assert !StepAgrees(v, b);
    }
    if !NoPaddingOver(v) {
      var m, n :| IsRead(v, m) && Mapped(v, n) && PadsOver(v, m, n);
      PaddedFound(v, m, n);
    }
  }

  /** What is found in a step's padding is mapped there. */
  lemma NothingInPadding(v: View, m: Mapping, b: int)
    requires v.page > 0 && NoPaddingOver(v) && IsRead(v, m)
    requires HeldEnd(v, m) <= b < HeldEnd(v, m) + Padding(m, v.page)
    ensures Lookup(v, b) == None
  {
    LookupCovers(v, b);
    if Lookup(v, b).Some? {
      var n := Lookup(v, b).value;
      assert IsRead(v, m) && Mapped(v, n) && PadsOver(v, m, n);
    }
  }

  lemma StepOfCoreOrShare(v: View, a: nat)
    requires v.page > 0 && Sorted(v.core) && Disjoint(v.core) && NoIntrusion(v) && NoPaddingOver(v)
    ensures StepAgrees(v, a)
  {
    LookupCovers(v, a);
    hide Lookup, Sorted, Disjoint, NoPaddingOver, Padding;
    if Lookup(v, a).Some? && a < HeldEnd(v, Lookup(v, a).value) {
      var m := Lookup(v, a).value;
      if i :| 0 <= i < |v.core| && v.core[i].Covers(a) {
        LookupFindsCore(v, a, i);
        forall b | a <= b < HeldEnd(v, m)
          ensures Lookup(v, b) == Some(m)
        {
          LookupFindsCore(v, b, i);
        }
      } else {
        var j := FoundInShare(v, a);
        forall b | a <= b < HeldEnd(v, m)
          ensures Lookup(v, b) == Some(m)
        {
          ServesOn(v, j, a, b);
          ServesIsFound(v, j, b);
        }
      }
      forall b | HeldEnd(v, m) <= b < HeldEnd(v, m) + Padding(m, v.page)
        ensures Lookup(v, b) == None
      {
        NothingInPadding(v, m, b);
      }
    }
  }

  /** The mapping each byte of a read is taken from, or none for padding. */
  function Owners(v: View, addr: nat, size: nat): Option<seq<Option<Mapping>>>
    requires v.page > 0
    decreases size
  {
    if size == 0 then Some([])
    else match Lookup(v, addr)
      case None => None
      case Some(m) =>
        LookupCovers(v, addr);
        var n := |Pread(v.files, m.fd, Min(size, m.vaddr + m.memsz - addr), m.offset + (addr - m.vaddr))|;
        if n == 0 then None
        else
          var pad := Min(size - n, Padding(m, v.page));
          match Owners(v, addr + n + pad, size - n - pad)
          case None => None
          case Some(rest) => Some(Repeat(Some(m), n) + Repeat(None, pad) + rest)
  }

  /** The byte at address a as its owner has it. */
  ghost predicate OwnedByte(v: View, owner: Option<Mapping>, a: int, b: Byte) {
    match owner
    case None => b == 0
    case Some(m) =>
      m.Covers(a) && m.fd in v.files && m.offset + (a - m.vaddr) < |v.files[m.fd]|
      && b == v.files[m.fd][m.offset + (a - m.vaddr)]
  }

  ghost predicate AllOwned(v: View, owners: seq<Option<Mapping>>, addr: int, bytes: seq<Byte>) {
    |owners| == |bytes| && forall i :: 0 <= i < |bytes| ==> OwnedByte(v, owners[i], addr + i, bytes[i])
  }

  lemma JoinOwned(v: View, a: seq<Option<Mapping>>, b: seq<Option<Mapping>>, addr: int, x: seq<Byte>, y: seq<Byte>)
    requires AllOwned(v, a, addr, x) && AllOwned(v, b, addr + |x|, y)
    ensures AllOwned(v, a + b, addr, x + y)
  {
    hide OwnedByte;
    forall i | 0 <= i < |x + y|
      ensures OwnedByte(v, (a + b)[i], addr + i, (x + y)[i])
    {
      if i >= |x| {
        assert OwnedByte(v, b[i - |x|], addr + |x| + (i - |x|), y[i - |x|]);
      }
    }
  }

  lemma PreadOwned(v: View, m: Mapping, addr: nat, len: nat)
    requires m.Covers(addr) && len <= m.vaddr + m.memsz - addr
    ensures var data := Pread(v.files, m.fd, len, m.offset + (addr - m.vaddr));
            AllOwned(v, Repeat(Some(m), |data|), addr, data)
  {
  }

  lemma OwnersUnfold(v: View, addr: nat, size: nat, m: Mapping)
    requires v.page > 0 && size > 0 && Lookup(v, addr) == Some(m) && m.Covers(addr)
    ensures var data := Pread(v.files, m.fd, Min(size, m.vaddr + m.memsz - addr), m.offset + (addr - m.vaddr));
            var pad := Min(size - |data|, Padding(m, v.page));
            if data == [] then Read(v, addr, size).None? && Owners(v, addr, size).None?
            else
              var next, left := addr + |data| + pad, size - |data| - pad;
              && (Read(v, next, left).None? ==> Read(v, addr, size).None?)
              && (Owners(v, next, left).None? ==> Owners(v, addr, size).None?)
              && (Read(v, next, left).Some? ==>
                    Read(v, addr, size) == Some(data + Repeat<Byte>(0, pad) + Read(v, next, left).value))
              && (Owners(v, next, left).Some? ==>
                    Owners(v, addr, size) ==
                    Some(Repeat(Some(m), |data|) + Repeat(None, pad) + Owners(v, next, left).value))
  {
    hide Lookup, Pread, Padding, Repeat;
  }

  /** A read delivers, for each address, the byte its owner has there. */
  lemma {:induction false} ReadIsOwned(v: View, addr: nat, size: nat)
    requires v.page > 0
    ensures Read(v, addr, size).Some? <==> Owners(v, addr, size).Some?
    ensures Read(v, addr, size).Some? ==>
              |Read(v, addr, size).value| == size
              && AllOwned(v, Owners(v, addr, size).value, addr, Read(v, addr, size).value)
    decreases size
  {
    hide Read, Owners, Lookup, Pread, Padding, OwnedByte, Repeat, AllOwned;
    if size == 0 || Lookup(v, addr).None? {
      OwnersEnd(v, addr, size);
    } else {
      var m := Lookup(v, addr).value;
      LookupCovers(v, addr);
      OwnersUnfold(v, addr, size, m);
      var len := Min(size, m.vaddr + m.memsz - addr);
      PreadOwned(v, m, addr, len);
      var data := Pread(v.files, m.fd, len, m.offset + (addr - m.vaddr));
      if data != [] {
        var pad := Min(size - |data|, Padding(m, v.page));
        var next, left := addr + |data| + pad, size - |data| - pad;
        ReadIsOwned(v, next, left);
        if Read(v, next, left).Some? {
          PaddingOwned(v, addr + |data|, pad);
          JoinOwned(v, Repeat(Some(m), |data|), Repeat(None, pad), addr, data, Repeat<Byte>(0, pad));
          JoinOwned(v, Repeat(Some(m), |data|) + Repeat(None, pad), Owners(v, next, left).value, addr,
                    data + Repeat<Byte>(0, pad), Read(v, next, left).value);
        }
      }
    }
  }

  lemma OwnersEnd(v: View, addr: nat, size: nat)
    requires v.page > 0 && (size == 0 || Lookup(v, addr).None?)
    ensures size > 0 ==> Read(v, addr, size).None? && Owners(v, addr, size).None?
    ensures size == 0 ==> Read(v, addr, size) == Some([]) && Owners(v, addr, size) == Some([]) && AllOwned(v, [], addr, [])
  {
  }

  lemma PaddingOwned(v: View, addr: int, pad: nat)
    ensures AllOwned(v, Repeat(None, pad), addr, Repeat<Byte>(0, pad))
  {
  }

  /** Every byte of the read comes from the mapping found at its own address; zeros go where there is none. */
  ghost predicate OwnersRight(v: View, addr: nat, size: nat)
    requires v.page > 0
  {
    var o := Owners(v, addr, size);
    o.Some? ==> forall i :: 0 <= i < |o.value| ==> o.value[i] == Lookup(v, addr + i)
  }

  /** How much a step reads. */
  lemma PreadLength(v: View, m: Mapping, addr: nat, size: nat)
    requires m.Covers(addr)
    ensures var data := Pread(v.files, m.fd, Min(size, m.vaddr + m.memsz - addr), m.offset + (addr - m.vaddr));
            |data| == if addr < HeldEnd(v, m) then Min(size, HeldEnd(v, m) - addr) else 0
  {
  }

  lemma {:induction false} OwnersAgree(v: View, addr: nat, size: nat)
    requires v.page > 0 && forall a: nat :: StepAgrees(v, a)
    ensures OwnersRight(v, addr, size)
    decreases size
  {
    hide Read, Owners, Lookup, Pread, Padding, Repeat, HeldEnd;
    if size == 0 || Lookup(v, addr).None? {
      OwnersEnd(v, addr, size);
    } else {
      var m := Lookup(v, addr).value;
      LookupCovers(v, addr);
      OwnersUnfold(v, addr, size, m);
      PreadLength(v, m, addr, size);
      var data := Pread(v.files, m.fd, Min(size, m.vaddr + m.memsz - addr), m.offset + (addr - m.vaddr));
      assert StepAgrees(v, addr);
      if data != [] {
        var pad := Min(size - |data|, Padding(m, v.page));
        var next, left := addr + |data| + pad, size - |data| - pad;
        OwnersAgree(v, next, left);
        if Owners(v, next, left).Some? {
          JoinRight(v, m, addr, |data|, pad, Owners(v, next, left).value);
        }
      }
    }
  }

  lemma JoinRight(v: View, m: Mapping, addr: nat, n: nat, pad: nat, rest: seq<Option<Mapping>>)
    requires forall b :: addr <= b < addr + n ==> Lookup(v, b) == Some(m)
    requires forall b :: addr + n <= b < addr + n + pad ==> Lookup(v, b) == None
    requires forall i :: 0 <= i < |rest| ==> rest[i] == Lookup(v, addr + n + pad + i)
    ensures var o := Repeat(Some(m), n) + Repeat(None, pad) + rest;
            forall i :: 0 <= i < |o| ==> o[i] == Lookup(v, addr + i)
  {
    hide Lookup, Repeat;
    var o := Repeat(Some(m), n) + Repeat(None, pad) + rest;
    forall i | 0 <= i < |o|
      ensures o[i] == Lookup(v, addr + i)
    {
      if i >= n + pad {
        assert o[i] == rest[i - n - pad];
        assert rest[i - n - pad] == Lookup(v, addr + n + pad + (i - n - pad));
      }
    }
  }

  /** Where a step disagrees with the lookup, the read that ends there takes the wrong byte. */
  lemma WrongOwner(v: View, a: nat, b: nat)
    requires v.page > 0 && Lookup(v, a).Some? && a < HeldEnd(v, Lookup(v, a).value)
    requires var m := Lookup(v, a).value;
             || (a <= b < HeldEnd(v, m) && Lookup(v, b) != Some(m))
             || (HeldEnd(v, m) <= b < HeldEnd(v, m) + Padding(m, v.page) && Lookup(v, b) != None)
    ensures !OwnersRight(v, a, b + 1 - a)
  {
    hide Read, Lookup, Pread, Padding, Repeat, HeldEnd;
    var m := Lookup(v, a).value;
    LookupCovers(v, a);
    var size := b + 1 - a;
    OwnersUnfold(v, a, size, m);
    PreadLength(v, m, a, size);
    assert Owners(v, b + 1, 0) == Some([]);
    assert Owners(v, a, size).value[size - 1] == if b < HeldEnd(v, m) then Some(m) else None;
  }

  lemma StepDisagrees(v: View, a: nat)
    requires v.page > 0 && !StepAgrees(v, a)
    ensures exists size: nat :: !OwnersRight(v, a, size)
  {
    hide Lookup, Padding, HeldEnd, OwnersRight;
    var m := Lookup(v, a).value;
    LookupCovers(v, a);
    if b :| a <= b < HeldEnd(v, m) && Lookup(v, b) != Some(m) {
      WrongOwner(v, a, b);
    } else {
      var b :| HeldEnd(v, m) <= b < HeldEnd(v, m) + Padding(m, v.page) && Lookup(v, b) != None;
      WrongOwner(v, a, b);
    }
  }

  /**
   Carried to reads: in every read, each byte comes from the mapping found at its own address, and
   each filled-in zero is where none is found, exactly under that condition.
   */
  lemma ReadsAgree(v: View)
    requires v.page > 0 && Sorted(v.core) && Disjoint(v.core)
    ensures (forall addr: nat, size: nat :: OwnersRight(v, addr, size)) <==> NoIntrusion(v) && NoPaddingOver(v)
  {
    StepsAgree(v);
    hide Sorted, Disjoint, NoIntrusion, NoPaddingOver, OwnersRight, StepAgrees;
    if NoIntrusion(v) && NoPaddingOver(v) {
      forall addr: nat, size: nat
        ensures OwnersRight(v, addr, size)
      {
        OwnersAgree(v, addr, size);
      }
    } else {
      var a: nat :| !StepAgrees(v, a);
      StepDisagrees(v, a);
    }
  }

  lemma WellFormedPair(v: View, m: Mapping, n: Mapping)
    requires WellFormed(v) && Mapped(v, m) && Mapped(v, n)
    ensures HeldEnd(v, m) == m.vaddr + m.memsz && !PadsOver(v, m, n)
    ensures m.vaddr < n.vaddr ==> m.vaddr + m.memsz <= n.vaddr
  {
    PagePositive(v);
    PaddingIs(m, v.page);
    PaddingIs(n, v.page);
    hide RoundUp, Padding;
    assert Backed(v, m);
    assert m != n ==> Apart(v, m, n);
    hide WellFormed;
  }

  /** What the loader relies on is enough. */
  lemma WellFormedAgrees(v: View)
    requires WellFormed(v)
    ensures forall addr: nat, size: nat :: OwnersRight(v, addr, size)
  {
    ReadsAgree(v);
    hide OwnersRight, WellFormed, HeldEnd, PadsOver;
    forall j: nat, a: int | Serves(v, j, a)
      ensures !Intruded(v, j, a)
    {
      forall n | Mapped(v, n)
        ensures !(a < n.vaddr < HeldEnd(v, v.share[j]))
      {
        WellFormedPair(v, v.share[j], n);
      }
      assert forall i :: 0 <= i < |v.core| ==> Mapped(v, v.core[i]);
      assert forall k :: 0 <= k < j ==> Mapped(v, v.share[k]);
    }
    forall m, n | IsRead(v, m) && Mapped(v, n)
      ensures !PadsOver(v, m, n)
    {
      WellFormedPair(v, m, n);
    }
  }

  ghost predicate AllBacked(v: View) { forall m :: Mapped(v, m) ==> Backed(v, m) }

  /** A read from one mapping only, which the file holds. */
  lemma ReadWithin(v: View, m: Mapping, a: nat, size: nat)
    requires v.page > 0 && size > 0 && Lookup(v, a) == Some(m) && m.Covers(a) && Backed(v, m)
    requires a + size <= PageEnd(m, v.page)
    ensures var len := Min(size, m.vaddr + m.memsz - a);
            var off := m.offset + (a - m.vaddr);
            && off + len <= |v.files[m.fd]|
            && Read(v, a, size) == Some(v.files[m.fd][off..off + len] + Repeat<Byte>(0, size - len))
  {
    hide Lookup, Padding, Repeat, RoundUp;
    PaddingIs(m, v.page);
    var len := Min(size, m.vaddr + m.memsz - a);
    var off := m.offset + (a - m.vaddr);
    OwnersUnfold(v, a, size, m);
    assert Pread(v.files, m.fd, len, off) == v.files[m.fd][off..off + len];
    hide Pread;
    ReadNothing(v, a + size);
    var bytes := v.files[m.fd][off..off + len] + Repeat<Byte>(0, size - len);
    assert bytes + [] == bytes;
  }

  /** Pages of 4096 bytes: a class-sharing mapping of two, the second of which the core file has as well. */
  function SharedTwice(core: seq<Byte>, share: seq<Byte>): View {
    View([Mapping(1, 0, 4096, 4096)], [Mapping(2, 0, 0, 8192)], map[1 := core, 2 := share], 4096)
  }

  lemma SharedTwiceFound(core: seq<Byte>, share: seq<Byte>)
    requires |core| == 4096 && |share| == 8192
    ensures var v := SharedTwice(core, share);
            && Sorted(v.core) && Disjoint(v.core) && AllBacked(v)
            && Lookup(v, 4095) == Some(v.share[0]) && Lookup(v, 4096) == Some(v.core[0])
            && Serves(v, 0, 4095)
  {
    var v := SharedTwice(core, share);
    LookupFindsCore(v, 4096, 0);
    assert v.share[0].Covers(4095) && !v.core[0].Covers(4095);
    ServesIsFound(v, 0, 4095);
  }

  /** There a read that starts in the first page takes the second page from the wrong file. */
  lemma ShareRunsThrough(core: seq<Byte>, share: seq<Byte>)
    requires |core| == 4096 && |share| == 8192
    ensures var v := SharedTwice(core, share);
            && Sorted(v.core) && Disjoint(v.core) && AllBacked(v) && !NoIntrusion(v)
            && Read(v, 4095, 2) == Some([share[4095], share[4096]]) && Read(v, 4096, 1) == Some([core[0]])
  {
    var v := SharedTwice(core, share);
    SharedTwiceFound(core, share);
    hide Lookup, Read, Sorted, Disjoint, AllBacked, Serves;
    assert Intruded(v, 0, 4095);
    ReadWithin(v, v.share[0], 4095, 2);
    ReadWithin(v, v.core[0], 4096, 1);
    assert share[4095..4097] + Repeat<Byte>(0, 0) == [share[4095], share[4096]];
    assert core[0..1] + Repeat<Byte>(0, 0) == [core[0]];
  }

  /** A segment of an executable, at no page boundary, below a page of the core file. */
  function Unaligned(exec: seq<Byte>, core: seq<Byte>): View {
    View([Mapping(1, 0x560, 0x1560, 0x1a0), Mapping(2, 0, 0x2000, 0x1000)], [], map[1 := exec, 2 := core], 0x1000)
  }

  lemma UnalignedFound(exec: seq<Byte>, core: seq<Byte>)
    requires |exec| == 0x700 && |core| == 0x1000
    ensures var v := Unaligned(exec, core);
            && Sorted(v.core) && Disjoint(v.core) && AllBacked(v) && NoIntrusion(v) && !NoPaddingOver(v)
            && Lookup(v, 0x1560) == Some(v.core[0]) && Lookup(v, 0x2000) == Some(v.core[1])
  {
    var v := Unaligned(exec, core);
    LookupFindsCore(v, 0x1560, 0);
    LookupFindsCore(v, 0x2000, 1);
    hide Lookup;
    assert Padding(v.core[0], v.page) == 0xe60;
    hide Padding;
    assert IsRead(v, v.core[0]) && Mapped(v, v.core[1]) && PadsOver(v, v.core[0], v.core[1]);
  }

  /** The zeros filled in after it count from its size, and reach into that page. */
  lemma ZerosOverNextPage(exec: seq<Byte>, core: seq<Byte>)
    requires |exec| == 0x700 && |core| == 0x1000
    ensures var v := Unaligned(exec, core);
            && Sorted(v.core) && Disjoint(v.core) && AllBacked(v) && NoIntrusion(v) && !NoPaddingOver(v)
            && Read(v, 0x1560, 0xaa1) == Some(exec[0x560..] + Repeat<Byte>(0, 0x901))
            && Read(v, 0x2000, 1) == Some([core[0]])
  {
    var v := Unaligned(exec, core);
    UnalignedFound(exec, core);
    hide Lookup, Read, Sorted, Disjoint, NoIntrusion, NoPaddingOver, Repeat;
    ReadWithin(v, v.core[0], 0x1560, 0xaa1);
    ReadWithin(v, v.core[1], 0x2000, 1);
    assert exec[0x560..0x700] == exec[0x560..];
    assert core[0..1] + Repeat<Byte>(0, 0) == [core[0]];
  }
}
