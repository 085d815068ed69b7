/**
 The record of a thread's last Java frame: two words that other threads may look at between any
 two stores. Release barriers make the stores visible in program order.
 */
module FrameAnchor {

  /** A stack pointer, zero for none, and the pc that belongs to it. */
  datatype Pair = Pair(sp: int, pc: int)

  const NONE := Pair(0, 0)

  datatype Operation = Clear | Set(pair: Pair) | Copy(pair: Pair)

  /** The anchor after an operation. */
  function Result(op: Operation): Pair {
    match op
    case Clear => NONE
    case Set(p) => p
    case Copy(p) => p
  }

  class JavaFrameAnchor {
    var lastJavaSp: int
    var lastJavaPc: int
    ghost var shown: seq<Pair>   // what memory has held after each store

    ghost function Value(): Pair
      reads this
    {
      Pair(lastJavaSp, lastJavaPc)
    }

    constructor ()
      ensures Value() == NONE && shown == []
    {
      lastJavaSp, lastJavaPc, shown := 0, 0, [];
    }

    method StoreSp(sp: int)
      modifies this
      ensures Value() == Pair(sp, old(lastJavaPc)) && shown == old(shown) + [Value()]
    {
      lastJavaSp := sp;
      shown := shown + [Pair(lastJavaSp, lastJavaPc)];
    }

    method StorePc(pc: int)
      modifies this
      ensures Value() == Pair(old(lastJavaSp), pc) && shown == old(shown) + [Value()]
    {
      lastJavaPc := pc;
      shown := shown + [Pair(lastJavaSp, lastJavaPc)];
    }

    method ClearAnchor()
      modifies this
      ensures Value() == NONE && Shows(old(shown), shown, old(Value()), NONE)
    {
      StoreSp(0);
      StorePc(0);
    }

    /** Setting an anchor that is in use shows a mixed pair, except when one of the words stays. */
    method SetAnchor(sp: int, pc: int)
      modifies this
      ensures Value() == Pair(sp, pc)
      ensures Shows(old(shown), shown, old(Value()), Value()) <==>
              old(lastJavaSp) == 0 || old(lastJavaSp) == sp || old(lastJavaPc) == pc
    {
      StorePc(pc);
      StoreSp(sp);
      assert shown[|old(shown)|] == Pair(old(lastJavaSp), pc);
    }

    method CopyAnchor(src: Pair)
      modifies this
      ensures Value() == src && Shows(old(shown), shown, old(Value()), src)
    {
      if lastJavaSp != src.sp {
        StoreSp(0);
      }
      StorePc(src.pc);
      StoreSp(src.sp);
    }

    /**
     Any run of operations that sets the anchor only when it is clear: a pair with a stack
     pointer that memory ever holds is one that some operation was given.
     */
    method Perform(operations: seq<Operation>)
      requires SetsOnlyCleared(Value(), operations)
      modifies this
      ensures |shown| >= |old(shown)|
      ensures forall k :: |old(shown)| <= k < |shown| ==>
                shown[k].sp == 0 || shown[k] == old(Value()) || Given(shown[k], operations)
    {
      for i := 0 to |operations|
        invariant |shown| >= |old(shown)|
        invariant SetsOnlyCleared(Value(), operations[i..])
        invariant Value() == old(Value()) || Value() == NONE || Given(Value(), operations)
        invariant forall k :: |old(shown)| <= k < |shown| ==>
                    shown[k].sp == 0 || shown[k] == old(Value()) || Given(shown[k], operations)
      {
        ghost var before, was := shown, Value();
        var op := operations[i];
        assert operations[i..][0] == op && operations[i..][1..] == operations[i + 1..];
        match op
        case Clear => ClearAnchor();
        case Set(p) => SetAnchor(p.sp, p.pc);
        case Copy(p) => CopyAnchor(p);
        assert op.Clear? || Given(Value(), operations);
        assert Shows(before, shown, was, Value());
      }
    }
  }

  /** What has been shown since: nothing, the old pair or the new one, never parts of each. */
  ghost predicate Shows(before: seq<Pair>, after: seq<Pair>, was: Pair, becomes: Pair) {
    && |before| <= |after| && after[..|before|] == before
    && forall k :: |before| <= k < |after| ==> after[k].sp == 0 || after[k] == was || after[k] == becomes
  }

  ghost predicate Given(p: Pair, operations: seq<Operation>) {
    exists i :: 0 <= i < |operations| && !operations[i].Clear? && operations[i].pair == p
  }

  predicate SetsOnlyCleared(value: Pair, operations: seq<Operation>)
    decreases |operations|
  {
    operations != [] ==>
      && (operations[0].Set? ==> value.sp == 0)
      && SetsOnlyCleared(Result(operations[0]), operations[1..])
  }
}
