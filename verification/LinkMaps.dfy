/**
 The tables of the debuggee that lead to its libraries, on values: the dynamic section, the link map
 chain, names, and the class-sharing archive; and what following them enters into the mappings.
 */
module LinkMaps {
  import opened Common
  import opened CoreImage
  import opened LibSegments

  const DT_DEBUG := 21

  // ----- Words, entries and texts -----

  /** The value of bytes in memory, least significant first. */
  function Word(bytes: seq<Byte>): nat {
    if bytes == [] then 0 else bytes[0] + 256 * Word(bytes[1..])
  }

  function Power256(n: nat): nat { if n == 0 then 1 else 256 * Power256(n - 1) }

  /** The n bytes of a value. */
  function WordBytes(w: nat, n: nat): (r: seq<Byte>)
    ensures |r| == n
  {
    if n == 0 then [] else [w % 256] + WordBytes(w / 256, n - 1)
  }

  lemma {:induction false} WordRoundTrip(bytes: seq<Byte>)
    ensures WordBytes(Word(bytes), |bytes|) == bytes
  {
    if bytes != [] {
      WordRoundTrip(bytes[1..]);
      assert Word(bytes) % 256 == bytes[0] && Word(bytes) / 256 == Word(bytes[1..]);
      assert bytes == [bytes[0]] + bytes[1..];
    }
  }

  /** And every value of so many bytes is that of its bytes. */
  lemma {:induction false} BytesRoundTrip(w: nat, n: nat)
    requires w < Power256(n)
    ensures Word(WordBytes(w, n)) == w
  {
    if n > 0 {
      BytesRoundTrip(w / 256, n - 1);
      assert WordBytes(w, n)[1..] == WordBytes(w / 256, n - 1);
    }
  }

  ghost function Pointed(v: View, addr: nat): Option<nat>
    requires v.page > 0
  {
    match Read(v, addr, 8)
    case None => None
    case Some(bytes) => Some(Word(bytes))
  }

  /** An entry of the dynamic section: a tag and a value, side by side, if it can be read. */
  ghost function Dyn(v: View, addr: nat): Option<(nat, nat)>
    requires v.page > 0
  {
    match Read(v, addr, 16)
    case None => None
    case Some(bytes) => ReadIsOwned(v, addr, 16); Some((Word(bytes[..8]), Word(bytes[8..])))
  }

  function EntryAt(dynamicAddr: nat, k: nat): nat { dynamicAddr + 16 * k }

  /** The first k entries of the dynamic section can be read and are not the one looked for. */
  ghost predicate NoDebugBefore(v: View, dynamicAddr: nat, k: nat)
    requires v.page > 0
  {
    forall j :: 0 <= j < k ==> Dyn(v, EntryAt(dynamicAddr, j)).Some? && Dyn(v, EntryAt(dynamicAddr, j)).value.0 != DT_DEBUG
  }

  ghost predicate DebugAt(v: View, dynamicAddr: nat, k: nat)
    requires v.page > 0
  {
    && NoDebugBefore(v, dynamicAddr, k)
    && Dyn(v, EntryAt(dynamicAddr, k)).Some? && Dyn(v, EntryAt(dynamicAddr, k)).value.0 == DT_DEBUG
  }

  ghost predicate UnreadableAt(v: View, dynamicAddr: nat, k: nat)
    requires v.page > 0
  {
    NoDebugBefore(v, dynamicAddr, k) && Dyn(v, EntryAt(dynamicAddr, k)).None?
  }

  lemma DynRead(v: View, addr: nat)
    requires v.page > 0
    ensures Dyn(v, addr).None? <==> Read(v, addr, 16).None?
    ensures Read(v, addr, 16).Some? ==>
              var bytes := Read(v, addr, 16).value;
              |bytes| == 16 && Dyn(v, addr) == Some((Word(bytes[..8]), Word(bytes[8..])))
  {
    hide Read;
    ReadIsOwned(v, addr, 16);
  }

  ghost predicate TextAt(v: View, addr: nat, s: seq<Byte>)
    requires v.page > 0
  {
    forall i :: 0 <= i < |s| ==> s[i] != 0 && Read(v, addr + i, 1) == Some([s[i]])
  }

  ghost predicate Terminated(v: View, addr: nat, text: seq<Byte>, room: nat)
    requires v.page > 0
  {
    |text| + 1 < room && TextAt(v, addr, text) && Read(v, addr + |text|, 1) == Some([0])
  }

  lemma IsTerminated(v: View, addr: nat, text: seq<Byte>, room: nat)
    requires v.page > 0 && |text| + 1 < room && TextAt(v, addr, text) && Read(v, addr + |text|, 1) == Some([0])
    ensures Terminated(v, addr, text, room)
  {
  }

  /** No text ends where the characters read so far cannot be followed to an end. */
  lemma NotTerminated(v: View, addr: nat, text: seq<Byte>, room: nat)
    requires v.page > 0 && TextAt(v, addr, text)
    requires |text| == room - 1 || Read(v, addr + |text|, 1).None?
    ensures forall other :: !Terminated(v, addr, other, room)
  {
    hide Read;
    forall other
      ensures !Terminated(v, addr, other, room)
    {
      if Terminated(v, addr, other, room) {
        SameText(v, addr, text, other, room);
      }
    }
  }

  /** What can be read at an address cannot both end and go on. */
  lemma SameText(v: View, addr: nat, text: seq<Byte>, other: seq<Byte>, room: nat)
    requires v.page > 0 && TextAt(v, addr, text) && Terminated(v, addr, other, room)
    ensures |text| <= |other|
    ensures |text| < |other| ==> Read(v, addr + |text|, 1).Some?
  {
    hide Read;
    if |text| > |other| {
      assert Read(v, addr + |other|, 1) == Some([text[|other|]]);
    } else if |text| < |other| {
      assert Read(v, addr + |text|, 1) == Some([other[|text|]]);
    }
  }

  lemma OneText(v: View, addr: nat, text: seq<Byte>, other: seq<Byte>, room: nat)
    requires v.page > 0 && Terminated(v, addr, text, room) && Terminated(v, addr, other, room)
    ensures text == other
  {
    SameText(v, addr, text, other, room);
    SameText(v, addr, other, text, room);
    hide Read;
    forall i | 0 <= i < |text|
      ensures text[i] == other[i]
    {
      assert Some([text[i]]) == Read(v, addr + i, 1) == Some([other[i]]);
    }
  }

  /** The characters before the first zero. */
  function CString(s: seq<Byte>): seq<Byte> {
    if s == [] || s[0] == 0 then [] else [s[0]] + CString(s[1..])
  }

  lemma {:induction false} CStringIs(s: seq<Byte>, n: nat)
    requires n < |s| && s[n] == 0 && forall i :: 0 <= i < n ==> s[i] != 0
    ensures CString(s) == s[..n]
  {
    if n > 0 {
      CStringIs(s[1..], n - 1);
      assert s[..n] == [s[0]] + s[1..][..n - 1];
    }
  }

  lemma {:induction false} CStringFrom(s: seq<Byte>, n: nat)
    requires n <= |s| && forall i :: 0 <= i < n ==> s[i] != 0
    ensures CString(s) == s[..n] + CString(s[n..])
  {
    if n == 0 {
      assert s[0..] == s && s[..0] == [];
    } else {
      var rest := s[1..];
      CStringFrom(rest, n - 1);
      assert rest[n - 1..] == s[n..];
      assert s[..n] == [s[0]] + rest[..n - 1];
      assert CString(s) == [s[0]] + CString(rest);
    }
  }

  lemma NameStarts(s: seq<Byte>)
    requires s != []
    ensures CString(s) != [] <==> s[0] != 0
  {
  }

  // ----- Libraries -----

  /** What opening a path gives (negative for failure), and what a file's ELF headers say. */
  datatype Disk = Disk(open: seq<Byte> -> int, elf: int -> ElfFile)

  datatype ElfFile = NotElf | Elf(segments: seq<Segment>)

  /**
   The name that ends up in a buffer with these contents: the text at the address, or none for no
   address. A text that does not end, or not in the buffer, is taken as far as it goes, and what
   the buffer still holds after it counts as well.
   */
  ghost predicate Named(v: View, addr: nat, buf: seq<Byte>, name: seq<Byte>)
    requires v.page > 0
  {
    if addr == 0 then name == []
    else
      || Terminated(v, addr, name, |buf|)
      || exists n: nat :: CutAt(v, addr, buf, name, n)
  }

  ghost predicate CutAt(v: View, addr: nat, buf: seq<Byte>, name: seq<Byte>, n: nat)
    requires v.page > 0
  {
    && n < |buf| && n <= |name| && TextAt(v, addr, name[..n])
    && (n == |buf| - 1 || Read(v, addr + n, 1).None?)
    && name[n..] == if n == 0 then [] else CString(buf[n..])
  }

  /** A text that can be read to its end in the buffer is the name. */
  lemma TextIsTheName(v: View, addr: nat, buf: seq<Byte>, text: seq<Byte>, name: seq<Byte>)
    requires v.page > 0 && addr != 0 && Terminated(v, addr, text, |buf|) && Named(v, addr, buf, name)
    ensures name == text
  {
    hide Read;
    if Terminated(v, addr, name, |buf|) {
      OneText(v, addr, text, name, |buf|);
    } else {
      var n: nat :| CutAt(v, addr, buf, name, n);
      NotTerminated(v, addr, name[..n], |buf|);
    }
  }

  /** The segments of a file have been dealt with, from the view before to the sorted view after. */
  ghost predicate Entered(before: View, after: View, segments: seq<Segment>, fd: int, base: nat)
    requires before.page > 0 && after.page > 0
  {
    && (exists xs: seq<Index> :: EnteredBy(xs, before, after, segments, fd, base))
    && (Clear(before, segments, base) && before.share == [] && (forall m :: Mapped(before, m) ==> m.fd != fd) ==>
          SegmentsRead(before, after, segments, fd, base))
  }

  ghost predicate EnteredBy(xs: seq<Index>, before: View, after: View, segments: seq<Segment>, fd: int, base: nat) {
    && SegmentRun(xs, segments, fd, base) && |xs| == |segments| + 1
    && xs[0] == Index([], |before.core|, before) && Resorted(xs[|segments|], after)
  }

  lemma IsEntered(xs: seq<Index>, before: View, after: View, segments: seq<Segment>, fd: int, base: nat)
    requires before.page > 0 && EnteredBy(xs, before, after, segments, fd, base)
    ensures after.page > 0 && Entered(before, after, segments, fd, base)
  {
    hide SegmentRun, SegmentsRead, Clear;
    RunPages(xs, segments, fd, base);
    if Clear(before, segments, base) && before.share == [] && (forall m :: Mapped(before, m) ==> m.fd != fd) {
      LibraryRead(xs, segments, fd, base, after);
    }
  }

  /** Or they have not: another file's entry is in the way of one. */
  ghost predicate Refused(before: View, segments: seq<Segment>, fd: int, base: nat) {
    exists xs: seq<Index> :: RefusedBy(xs, before, segments, fd, base)
  }

  ghost predicate RefusedBy(xs: seq<Index>, before: View, segments: seq<Segment>, fd: int, base: nat) {
    SegmentRun(xs, segments, fd, base) && xs[0] == Index([], |before.core|, before) && BlockedAfter(xs, segments, fd, base)
  }

  /** Or the search for the address of one leaves the array. */
  ghost predicate Lost(before: View, segments: seq<Segment>, fd: int, base: nat) {
    exists xs: seq<Index> :: LostBy(xs, before, segments, fd, base)
  }

  ghost predicate LostBy(xs: seq<Index>, before: View, segments: seq<Segment>, fd: int, base: nat) {
    SegmentRun(xs, segments, fd, base) && xs[0] == Index([], |before.core|, before) && LeavesAfter(xs, segments, base)
  }

  /** One turn of the loop over the link maps: a buffer, the name that was read, and the views around it. */
  datatype Round = Round(linkMap: nat, buf: seq<Byte>, name: seq<Byte>, before: View, after: View)

  /**
   The words of a link map are the base difference, the address of the name, one that does not
   matter, and the address of the next link map.
   */
  ghost predicate RoundIs(r: Round, disk: Disk)
    requires r.before.page > 0 && r.after.page > 0
  {
    var base, nameAddr := Pointed(r.before, r.linkMap), Pointed(r.before, r.linkMap + 8);
    && base.Some? && nameAddr.Some? && Named(r.before, nameAddr.value, r.buf, r.name)
    && var fd := disk.open(r.name);
       if r.name != [] && fd >= 0 && disk.elf(fd).Elf?
       then Entered(r.before, r.after, disk.elf(fd).segments, fd, base.value)
       else r.after == r.before
  }

  /** The name of the link map has been read, and leads to a library. */
  ghost predicate Leads(r: Round, disk: Disk)
    requires r.before.page > 0
  {
    var base, nameAddr := Pointed(r.before, r.linkMap), Pointed(r.before, r.linkMap + 8);
    && base.Some? && nameAddr.Some? && Named(r.before, nameAddr.value, r.buf, r.name)
    && r.name != [] && disk.open(r.name) >= 0 && disk.elf(disk.open(r.name)).Elf?
  }

  /** A turn fails: a word of the link map cannot be read, or the library is refused. */
  ghost predicate RoundFails(r: Round, disk: Disk)
    requires r.before.page > 0 && r.after.page > 0
  {
    || Pointed(r.before, r.linkMap).None? || Pointed(r.before, r.linkMap + 8).None?
    || (Leads(r, disk)
        && var fd := disk.open(r.name);
           Refused(r.before, disk.elf(fd).segments, fd, Pointed(r.before, r.linkMap).value))
    || (RoundIs(r, disk) && Pointed(r.after, r.linkMap + 24).None?)
  }

  /** A turn leaves the array. */
  ghost predicate RoundLost(r: Round, disk: Disk)
    requires r.before.page > 0
  {
    && Leads(r, disk)
    && var fd := disk.open(r.name);
       Lost(r.before, disk.elf(fd).segments, fd, Pointed(r.before, r.linkMap).value)
  }

  /** The link map after a number of rounds. */
  ghost predicate ComesNext(rounds: seq<Round>, first: nat, addr: nat) {
    if rounds == [] then addr == first
    else
      var last := rounds[|rounds| - 1];
      last.after.page > 0 && Pointed(last.after, last.linkMap + 24) == Some(addr)
  }

  function ViewAfter(rounds: seq<Round>, start: View): View {
    if rounds == [] then start else rounds[|rounds| - 1].after
  }

  /** Rounds over a chain of link maps, each from where the one before has left off. */
  ghost predicate Chained(rounds: seq<Round>, first: nat, start: View, disk: Disk) {
    && start.page > 0
    && (forall k :: 0 <= k < |rounds| ==> rounds[k].before.page > 0 && rounds[k].after.page > 0)
    && (forall k :: 0 <= k < |rounds| ==>
          && rounds[k].linkMap != 0 && ComesNext(rounds[..k], first, rounds[k].linkMap)
          && rounds[k].before == ViewAfter(rounds[..k], start) && RoundIs(rounds[k], disk))
  }

  /** A turn that follows on these rounds. */
  ghost predicate Follows(r: Round, rounds: seq<Round>, first: nat, start: View) {
    && r.before.page > 0 && r.after.page > 0
    && r.linkMap != 0 && ComesNext(rounds, first, r.linkMap) && r.before == ViewAfter(rounds, start)
  }

  ghost predicate ChainFails(rounds: seq<Round>, first: nat, start: View, disk: Disk) {
    exists r: Round :: Follows(r, rounds, first, start) && RoundFails(r, disk)
  }

  ghost predicate ChainLost(rounds: seq<Round>, first: nat, start: View, disk: Disk) {
    exists r: Round :: Follows(r, rounds, first, start) && RoundLost(r, disk)
  }

  lemma ChainStarts(first: nat, start: View, disk: Disk)
    requires start.page > 0
    ensures Chained([], first, start, disk) && ComesNext([], first, first) && ViewAfter([], start) == start
  {
  }

  lemma ChainFurther(rounds: seq<Round>, first: nat, start: View, disk: Disk, r: Round, next: nat)
    requires Chained(rounds, first, start, disk) && r.before.page > 0 && r.after.page > 0 && RoundIs(r, disk)
    requires r.linkMap != 0 && ComesNext(rounds, first, r.linkMap) && r.before == ViewAfter(rounds, start)
    requires Pointed(r.after, r.linkMap + 24) == Some(next)
    ensures Chained(rounds + [r], first, start, disk) && ViewAfter(rounds + [r], start) == r.after
    ensures ComesNext(rounds + [r], first, next)
  {
    hide RoundIs, Pointed;
    var all := rounds + [r];
    assert all[..|rounds|] == rounds;
    assert forall k :: 0 <= k < |rounds| ==> all[..k] == rounds[..k];
  }

  /** What was found on the way through the debuggee's tables. */
  datatype Libraries = Libraries(entry: nat, debug: nat, first: nat, loaded: View, rounds: seq<Round>)

  /** The debugging record is found. */
  ghost predicate Found(before: View, libs: Libraries, dynamicAddr: nat)
    requires before.page > 0
  {
    DebugAt(before, dynamicAddr, libs.entry) && Dyn(before, dynamicAddr + 16 * libs.entry).value.1 == libs.debug
  }

  /** And its words can be read, and there is a dynamic linker. */
  ghost predicate Linked(before: View, libs: Libraries, dynamicAddr: nat, interpFd: int, disk: Disk)
    requires before.page > 0
  {
    && Found(before, libs, dynamicAddr) && Pointed(before, libs.debug + 8) == Some(libs.first)
    && Pointed(before, libs.debug + 32).Some? && disk.elf(interpFd).Elf?
  }

  /** And that has been entered. */
  ghost predicate LinkerEntered(before: View, libs: Libraries, dynamicAddr: nat, interpFd: int, disk: Disk)
    requires before.page > 0
  {
    && Linked(before, libs, dynamicAddr, interpFd, disk) && libs.loaded.page > 0
    && Entered(before, libs.loaded, disk.elf(interpFd).segments, interpFd, Pointed(before, libs.debug + 32).value)
    && Chained(libs.rounds, libs.first, libs.loaded, disk)
  }

  /**
   All libraries have been entered: the dynamic linker at the base that the debugging record gives in
   its fifth word, and then those of the chain that starts at its second word, to the end.
   */
  ghost predicate AllEntered(before: View, after: View, libs: Libraries, dynamicAddr: nat, interpFd: int, disk: Disk)
    requires before.page > 0
  {
    && LinkerEntered(before, libs, dynamicAddr, interpFd, disk)
    && ComesNext(libs.rounds, libs.first, 0) && after == ViewAfter(libs.rounds, libs.loaded)
  }

  /** Following the tables fails: one cannot be read, there is no dynamic linker, or a library is refused. */
  ghost predicate TablesFail(before: View, libs: Libraries, dynamicAddr: nat, interpFd: int, disk: Disk, rounds: nat)
    requires before.page > 0
  {
    || (exists k: nat :: k < rounds && UnreadableAt(before, dynamicAddr, k))
    || (Found(before, libs, dynamicAddr)
        && (Pointed(before, libs.debug + 8).None? || Pointed(before, libs.debug + 32).None? || !disk.elf(interpFd).Elf?))
    || (Linked(before, libs, dynamicAddr, interpFd, disk)
        && Refused(before, disk.elf(interpFd).segments, interpFd, Pointed(before, libs.debug + 32).value))
    || (LinkerEntered(before, libs, dynamicAddr, interpFd, disk) && ChainFails(libs.rounds, libs.first, libs.loaded, disk))
  }

  /** Following the tables leaves the array. */
  ghost predicate TablesLost(before: View, libs: Libraries, dynamicAddr: nat, interpFd: int, disk: Disk)
    requires before.page > 0
  {
    || before.core == []
    || (Linked(before, libs, dynamicAddr, interpFd, disk)
        && Lost(before, disk.elf(interpFd).segments, interpFd, Pointed(before, libs.debug + 32).value))
    || (LinkerEntered(before, libs, dynamicAddr, interpFd, disk) && ChainLost(libs.rounds, libs.first, libs.loaded, disk))
  }

  // ----- The class-sharing archive -----

  const PATH_MAX := 4096

  /** A space of the archive, which is mapped at the same address in every process that shares it. */
  datatype Space = Space(offset: nat, base: nat, used: nat, readOnly: bool)

  datatype Archive = Unreadable | Archive(fd: int, magic: int, version: int, spaces: seq<Space>) {
    predicate Good() { Archive? && magic == 0xf00b_aba2 && version == 1 }
  }

  /** Where the symbols of libjvm.so say the flag and the path are; 0 for a symbol that is not found. */
  datatype Libjvm = NoLibjvm | Libjvm(flag: nat, pathPointer: nat)

  /** Mappings of the read-only spaces, the last one first. */
  function Shared(spaces: seq<Space>, fd: int): seq<Mapping> {
    if spaces == [] then []
    else
      var s := spaces[|spaces| - 1];
      var before := Shared(spaces[..|spaces| - 1], fd);
      if s.readOnly then [Mapping(fd, s.offset, s.base, s.used)] + before else before
  }

  ghost function ReadOnlyOnes(spaces: seq<Space>): set<nat> {
    set k: nat | k < |spaces| && spaces[k].readOnly
  }

  /** One mapping for each read-only space. */
  lemma {:induction false} SharedCount(spaces: seq<Space>, fd: int)
    ensures |Shared(spaces, fd)| == |ReadOnlyOnes(spaces)|
  {
    if spaces == [] {
      assert ReadOnlyOnes([]) == {};
    } else {
      var last := |spaces| - 1;
      var init := spaces[..last];
      SharedCount(init, fd);
      assert ReadOnlyOnes(spaces) == if spaces[last].readOnly then ReadOnlyOnes(init) + {last} else ReadOnlyOnes(init);
    }
  }

  /** Each as the header of the archive has it, earlier spaces further back. */
  lemma {:induction false} SharedIs(spaces: seq<Space>, fd: int, i: nat)
    requires i < |spaces| && spaces[i].readOnly
    ensures var all, back := Shared(spaces, fd), |Shared(spaces[..i], fd)|;
            back < |all| && all[|all| - 1 - back] == Mapping(fd, spaces[i].offset, spaces[i].base, spaces[i].used)
  {
    var last := |spaces| - 1;
    if i < last {
      SharedIs(spaces[..last], fd, i);
      assert spaces[..last][..i] == spaces[..i];
    }
  }

  ghost predicate SharingOn(v: View, jvm: Libjvm)
    requires v.page > 0
  {
    jvm.Libjvm? && jvm.flag != 0 && Read(v, jvm.flag, 1).Some? && Read(v, jvm.flag, 1) != Some([0])
  }

  ghost predicate SharingOff(v: View, jvm: Libjvm)
    requires v.page > 0
  {
    jvm.Libjvm? ==> jvm.flag != 0 && Read(v, jvm.flag, 1) == Some([0])
  }

  lemma OnOrOff(v: View, jvm: Libjvm)
    requires v.page > 0
    ensures !(SharingOn(v, jvm) && SharingOff(v, jvm))
  {
  }

  /** The path of the archive can be followed to this text. */
  ghost predicate ArchiveNamed(v: View, jvm: Libjvm, text: seq<Byte>)
    requires v.page > 0
  {
    && jvm.Libjvm? && jvm.pathPointer != 0 && Pointed(v, jvm.pathPointer).Some?
    && Terminated(v, Pointed(v, jvm.pathPointer).value, text, PATH_MAX)
  }

  lemma OneName(v: View, jvm: Libjvm, text: seq<Byte>)
    requires v.page > 0 && ArchiveNamed(v, jvm, text)
    ensures forall other :: ArchiveNamed(v, jvm, other) ==> other == text
  {
    hide Read, Terminated, Word;
    forall other | ArchiveNamed(v, jvm, other)
      ensures other == text
    {
      OneText(v, Pointed(v, jvm.pathPointer).value, text, other, PATH_MAX);
    }
  }

  /** The class-sharing mappings are those of the archive that the debuggee names, or none if it shares nothing. */
  ghost predicate ArchiveIn(v: View, jvm: Libjvm, archives: seq<Byte> -> Archive) {
    var bare := v.(share := []);
    && v.page > 0
    && if SharingOff(bare, jvm) then v.share == []
       else
         && SharingOn(bare, jvm)
         && exists text :: && ArchiveNamed(bare, jvm, text) && archives(text).Good()
                           && v.share == Shared(archives(text).spaces, archives(text).fd)
  }

  /** The debuggee shares classes, or may do so, and does not name an archive that can be used. */
  ghost predicate NoArchive(v: View, jvm: Libjvm, archives: seq<Byte> -> Archive) {
    && v.page > 0 && !SharingOff(v, jvm)
    && (SharingOn(v, jvm) ==> forall text :: ArchiveNamed(v, jvm, text) ==> !archives(text).Good())
  }

  lemma IsArchiveIn(bare: View, v: View, jvm: Libjvm, archives: seq<Byte> -> Archive)
    requires bare.page > 0 && bare.share == [] && v == bare.(share := v.share)
    requires SharingOff(bare, jvm) ==> v.share == []
    requires !SharingOff(bare, jvm) ==>
               && SharingOn(bare, jvm)
               && exists text :: && ArchiveNamed(bare, jvm, text) && archives(text).Good()
                                 && v.share == Shared(archives(text).spaces, archives(text).fd)
    ensures ArchiveIn(v, jvm, archives)
  {
    assert v.(share := []) == bare;
  }
}
