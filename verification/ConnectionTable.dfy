/** The connection table of src/lib/spine.c as one caller sees it: the three operations on
    the slots, run without interference. */
module ConnectionTable {
  import opened Machine

  /** What the operations do to the index fields: 0 is free, otherwise position + 1. */
  predicate Numbered(index: seq<int>) {
    forall p :: 0 <= p < |index| ==> index[p] == 0 || index[p] == p + 1
  }

  /** The first free slot, or the number of slots. */
  function FirstFree(index: seq<int>): (p: nat)
    ensures p <= |index|
    ensures p < |index| ==> index[p] == 0
    ensures forall q :: 0 <= q < p ==> index[q] != 0
  {
    if index == [] || index[0] == 0 then 0 else 1 + FirstFree(index[1..])
  }

  datatype Result = Connection(sid: int) | Null

  /** What a start returns, and what it does to the index fields. */
  function Started(index: seq<int>, memoryOk: bool): Result {
    var p := FirstFree(index);
    if p + 1 < |index| && memoryOk then Connection(p + 1) else Null
  }

  function AfterStart(index: seq<int>): seq<int> {
    var p := FirstFree(index);
    if p < |index| then index[p := p + 1] else index
  }

  /** What a free does to them. */
  function AfterFree(index: seq<int>, sid: int): seq<int> {
    if 1 <= sid <= |index| then index[sid - 1 := 0] else index
  }

  class Table {
    const index: array<u16>
    const impl: array<nat>

    ghost predicate Valid()
      reads this, index, impl
    {
      && index.Length == impl.Length < TWO16
      && index as object != impl as object
      && Numbered(index[..])
    }

    constructor (max: nat)
      requires max < TWO16
      ensures Valid() && fresh(index) && fresh(impl) && index.Length == max
      ensures forall p :: 0 <= p < max ==> index[p] == 0
    {
      index := new u16[max](_ => 0);
      impl := new nat[max](_ => 0);
    }

    /** spine_connection_start up to the message: the scan for a free slot and the claim.
        The lowest free slot is claimed; the caller gets a connection unless every slot
        is taken or the claimed one is the last. `memoryOk` is the outcome of allocating
        the private state. */
    method Start(socket: nat, memoryOk: bool) returns (r: Result)
      requires Valid()
      modifies index, impl
      ensures Valid()
      ensures r == Started(old(index[..]), memoryOk) && index[..] == AfterStart(old(index[..]))
      ensures var p := FirstFree(old(index[..]));
        impl[..] == if p + 1 < index.Length then old(impl[..])[p := socket] else old(impl[..])
    {
      ghost var before := index[..];
      var sid := 0;
      var claimed := false;
      while sid < index.Length && !claimed
        invariant 0 <= sid <= index.Length && impl[..] == old(impl[..])
        invariant !claimed ==> index[..] == before && forall q :: 0 <= q < sid ==> before[q] != 0
        invariant claimed ==> 0 < sid && before[sid - 1] == 0 && index[..] == before[sid - 1 := sid]
        invariant claimed ==> forall q :: 0 <= q < sid - 1 ==> before[q] != 0
        decreases index.Length - sid, !claimed
      {
        if index[sid] == 0 {
          index[sid] := sid + 1;
          claimed := true;
        }
        sid := sid + 1;
      }
      FirstFreeIs(before, if claimed then sid - 1 else sid);
      if sid >= index.Length {
        return Null;
      }
      impl[sid - 1] := socket;
      if !memoryOk {
        return Null;
      }
      return Connection(sid);
    }

    /** spine_connection_lookup: the identifier is in bounds and its slot is taken. */
    method Lookup(sid: u16) returns (found: bool)
      requires Valid()
      ensures found <==> 1 <= sid <= index.Length && index[sid - 1] != 0
    {
      if sid == 0 || sid > index.Length {
        return false;
      }
      return index[sid - 1] == sid;
    }

    /** spine_connection_free: an identifier that is not taken is ignored. */
    method Free(sid: u16)
      requires Valid()
      modifies index
      ensures Valid()
      ensures index[..] == AfterFree(old(index[..]), sid)
    {
      if sid == 0 || sid > index.Length {
        return;
      }
      if index[sid - 1] != sid {
        return;
      }
      index[sid - 1] := 0;
    }
  }

  lemma FirstFreeIs(index: seq<int>, p: nat)
    requires p <= |index|
    requires p < |index| ==> index[p] == 0
    requires forall q :: 0 <= q < p ==> index[q] != 0
    ensures FirstFree(index) == p
  {
    assert !(FirstFree(index) < p);
  }

  /** Freeing the connection that a start returned restores the table. */
  lemma FreeUndoesStart(index: seq<int>, memoryOk: bool)
    requires Started(index, memoryOk).Connection?
    ensures AfterFree(AfterStart(index), Started(index, memoryOk).sid) == index
  {
    var p := FirstFree(index);
    assert index[p := p + 1][p := 0] == index;
  }

  /** Whatever connections were started in between, the next start after a free claims the
      freed slot or a free one below it: slots are reused lowest first. */
  lemma NextStartAfterFree(index: seq<int>, sid: int)
    requires Numbered(index) && 1 <= sid <= |index|
    ensures FirstFree(AfterFree(index, sid)) == Min(sid - 1, FirstFree(index))
    ensures Numbered(AfterFree(index, sid)) && Numbered(AfterStart(index))
  {
    var freed := AfterFree(index, sid);
    FirstFreeIs(freed, Min(sid - 1, FirstFree(index)));
  }

  /** The index fields after n starts in a row. */
  function Starts(index: seq<int>, n: nat): seq<int> {
    if n == 0 then index else AfterStart(Starts(index, n - 1))
  }

  /** From an empty table they take the first n slots in order, and the next one returns the
      next slot unless it is the last. */
  lemma {:induction false} StartsInOrder(max: nat, n: nat)
    requires n <= max
    ensures var index := Starts(seq(max, _ => 0), n);
      && |index| == max && (forall p :: 0 <= p < max ==> index[p] == if p < n then p + 1 else 0)
      && Started(index, true) == if n + 1 < max then Connection(n + 1) else Null
  {
    if n > 0 {
      StartsInOrder(max, n - 1);
      FirstFreeIs(Starts(seq(max, _ => 0), n - 1), n - 1);
    }
    FirstFreeIs(Starts(seq(max, _ => 0), n), n);
  }
}
