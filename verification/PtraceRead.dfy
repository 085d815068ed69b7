/**
 Reading the memory of a live process one word at a time. The target answers a peek at a
 word-aligned address with the eight bytes stored there, or with an error.
 */
module PtraceRead {

  type Byte = b: nat | b < 256
  type EightBytes = w: seq<Byte> | |w| == 8 witness [0, 0, 0, 0, 0, 0, 0, 0]

  datatype Peeked = Unreadable | Word(bytes: EightBytes)

  type Target = int -> Peeked

  const ADDRESSES: nat := 0x1_0000_0000_0000_0000

  function Align(a: nat): nat { a - a % 8 }

  /** The words a read of the given range has to look at. */
  predicate Needed(w: int, addr: nat, size: nat) {
    w % 8 == 0 && w < addr + size && addr < w + 8
  }

  lemma IsNeeded(w: int, addr: nat, size: nat)
    requires w % 8 == 0 && w < addr + size && addr < w + 8
    ensures Needed(w, addr, size)
  {
  }

  lemma AlignIs(a: nat)
    ensures Align(a) % 8 == 0 && a - 8 < Align(a) <= a
  {
  }

  predicate Readable(t: Target, a: nat) { t(Align(a)).Word? }

  function ByteAt(t: Target, a: nat): Byte
    requires Readable(t, a)
  {
    t(Align(a)).bytes[a % 8]
  }

  /** A byte is the target's byte at an address that can be read. */
  predicate IsByteAt(t: Target, a: nat, b: Byte) { Readable(t, a) && b == ByteAt(t, a) }

  /** The first n bytes of the buffer are those of the target from addr on. */
  ghost predicate Copied(t: Target, addr: nat, buf: seq<Byte>, n: int) {
    && 0 <= n <= |buf|
    && forall i :: 0 <= i < n ==> IsByteAt(t, addr + i, buf[i])
  }

  lemma ExtendCopied(t: Target, addr: nat, before: seq<Byte>, after: seq<Byte>, n: nat, w: nat)
    requires n < |before| == |after| && Copied(t, addr, before, n) && after == before[n := after[n]]
    requires w % 8 == 0 && w <= addr + n < w + 8 && t(w).Word?
    requires after[n] == t(w).bytes[addr + n - w]
    ensures Copied(t, addr, after, n + 1)
  {
    forall i | 0 <= i < n + 1
      ensures IsByteAt(t, addr + i, after[i])
    {
      if i == n {
        ByteInWord(t, addr + n, w);
      } else {
        assert after[i] == before[i];
      }
    }
  }

  lemma ByteInWord(t: Target, a: nat, w: nat)
    requires w % 8 == 0 && w <= a < w + 8 && t(w).Word?
    ensures Readable(t, a) && ByteAt(t, a) == t(w).bytes[a - w]
  {
    assert Align(a) == w;
  }

  /** Bytes ptr.. of the word at w, as far as its end or the end of the range. */
  method CopyFromWord(t: Target, addr: nat, buf: array<Byte>, b0: nat, w: nat, ptr0: nat, size: nat)
    returns (b: nat, aligned: nat)
    requires w % 8 == 0 && t(w).Word? && ptr0 <= 8 && w + ptr0 == addr + b0
    requires b0 <= size <= buf.Length && Copied(t, addr, buf[..], b0)
    modifies buf
    ensures b0 <= b <= size && aligned == addr + b
    ensures aligned == w + 8 || aligned == addr + size
    ensures aligned <= w + 8
    ensures Copied(t, addr, buf[..], b)
    ensures buf[size..] == old(buf[size..])
  {
    hide Copied;
    var word := t(w).bytes;
    var ptr := ptr0;
    b, aligned := b0, w + ptr0;
    while ptr < 8 && aligned < addr + size
      invariant ptr0 <= ptr <= 8 && aligned == w + ptr && aligned == addr + b && b0 <= b <= size
      invariant Copied(t, addr, buf[..], b)
      invariant buf[size..] == old(buf[size..])
    {
      ghost var before := buf[..];
      buf[b] := word[ptr];
      ExtendCopied(t, addr, before, buf[..], b, w);
      b := b + 1;
      ptr := ptr + 1;
      aligned := aligned + 1;
    }
  }

  /** The words below a are done: all looked at, all readable. */
  ghost predicate Done(t: Target, addr: nat, size: nat, a: nat, peeks: set<int>) {
    && (forall w :: w in peeks ==> Needed(w, addr, size))
    && (forall w :: Needed(w, addr, size) && w < a ==> w in peeks && t(w).Word?)
  }

  lemma DoneStep(t: Target, addr: nat, size: nat, a: nat, a': nat, peeks: set<int>)
    requires Done(t, addr, size, a, peeks)
    requires a % 8 == 0 && a < a' <= a + 8 && Needed(a, addr, size) && t(a).Word?
    ensures Done(t, addr, size, a', peeks + {a})
  {
  }

  lemma DoneStart(t: Target, addr: nat, size: nat)
    ensures Done(t, addr, size, Align(addr), {})
  {
  }

  lemma DonePeeks(t: Target, addr: nat, size: nat, a: nat, peeks: set<int>)
    requires Done(t, addr, size, a, peeks)
    ensures forall w :: w in peeks ==> Needed(w, addr, size)
    ensures a == addr + size ==> forall w :: Needed(w, addr, size) ==> w in peeks && t(w).Word?
  {
  }

  /**
   A successful read is a byte copy of exactly size bytes. Every peek is aligned and touches
   the range, and the read fails exactly when one of the words it needs is unreadable.
   */
  method ProcessReadData(t: Target, addr: nat, buf: array<Byte>, size: nat)
    returns (ok: bool, ghost peeks: set<int>)
    requires size <= buf.Length
    requires addr + size < ADDRESSES
    modifies buf
    ensures ok ==> Copied(t, addr, buf[..], size)
    ensures buf[size..] == old(buf[size..])
    ensures ok <==> forall w :: Needed(w, addr, size) ==> t(w).Word?
    ensures forall w :: w in peeks ==> Needed(w, addr, size)
    ensures ok ==> forall w :: Needed(w, addr, size) ==> w in peeks
    ensures !ok ==> Stumbled(t, peeks)
  {
    hide Copied, Done, Needed, Align, Stumbled;
    peeks := {};
    var end := addr + size;
    var aligned := Align(addr);
    AlignIs(addr);
    var b := 0;
    NothingCopied(t, addr, buf[..]);
    DoneStart(t, addr, size);

    if aligned != addr {
      ghost var w := aligned;
      IsNeeded(w, addr, size);
      if t(aligned).Unreadable? {
        Stumbles(t, {w}, w);
        return false, {w};
      }
      b, aligned := CopyFromWord(t, addr, buf, 0, aligned, addr - aligned, size);
      DoneStep(t, addr, size, w, aligned, peeks);
      peeks := peeks + {w};
    }

    var words := (end - aligned) / 8;
    for i := 0 to words
      invariant aligned + 8 * (words - i) <= end < aligned + 8 * (words - i) + 8
      invariant aligned % 8 == 0 || aligned == end
      invariant addr <= aligned && b == aligned - addr
      invariant Copied(t, addr, buf[..], b)
      invariant buf[size..] == old(buf[size..])
      invariant Done(t, addr, size, aligned, peeks)
    {
      IsNeeded(aligned, addr, size);
      if t(aligned).Unreadable? {
        DonePeeks(t, addr, size, aligned, peeks);
        Stumbles(t, peeks + {aligned}, aligned);
        return false, peeks + {aligned};
      }
      DoneStep(t, addr, size, aligned, aligned + 8, peeks);
      peeks := peeks + {aligned};
      b, aligned := CopyFromWord(t, addr, buf, b, aligned, 0, size);
    }

    if aligned != end {
      IsNeeded(aligned, addr, size);
      if t(aligned).Unreadable? {
        DonePeeks(t, addr, size, aligned, peeks);
        Stumbles(t, peeks + {aligned}, aligned);
        return false, peeks + {aligned};
      }
      DoneStep(t, addr, size, aligned, end, peeks);
      peeks := peeks + {aligned};
      b, aligned := CopyFromWord(t, addr, buf, b, aligned, 0, size);
    }
    DonePeeks(t, addr, size, end, peeks);
    ok := true;
  }

  /** An unreadable word has been looked at. */
  ghost predicate Stumbled(t: Target, peeks: set<int>) { exists w :: w in peeks && t(w).Unreadable? }

  lemma Stumbles(t: Target, peeks: set<int>, w: int)
    requires w in peeks && t(w).Unreadable?
    ensures Stumbled(t, peeks)
  {
  }

  lemma NothingCopied(t: Target, addr: nat, buf: seq<Byte>)
    ensures Copied(t, addr, buf, 0)
  {
  }
}
