/** The staged registers of src/lib/spine.c: what a message writes waits in a register file
    until the next invocation hands it to the congestion control. The register file is the
    last value written to each register since it was last cleared. */
module Staging {
  import opened Machine
  import opened Messages
  import opened Options

  const REGISTERS: int := 20

  const NONVOLATILE_CONTROL_REG: int := 0
  const VOLATILE_CONTROL_REG: int := 8

  predicate IsControl(f: UpdateField) {
    f.regType == NONVOLATILE_CONTROL_REG || f.regType == VOLATILE_CONTROL_REG
  }

  /** The sender's obligation: control registers are in range. */
  ghost predicate InRange(fs: seq<UpdateField>) {
    forall i :: 0 <= i < |fs| && IsControl(fs[i]) ==> fs[i].regIndex < REGISTERS
  }

  type Registers = rs: seq<Option<u64>> | |rs| == REGISTERS witness seq(REGISTERS, _ => None)

  function Cleared(): (rs: Registers) { seq(REGISTERS, _ => None) }

  /** The last value written to register i. */
  function LastWrite(fs: seq<UpdateField>, i: nat): Option<u64> {
    if fs == [] then None
    else if fs[|fs| - 1].regIndex == i then Some(fs[|fs| - 1].value)
    else LastWrite(fs[..|fs| - 1], i)
  }

  /** The register file that a list of writes leaves. */
  function LastWrites(fs: seq<UpdateField>): (rs: Registers) {
    seq(REGISTERS, i requires i >= 0 => LastWrite(fs, i))
  }

  /** The fields staged from a message: those before the first of a type not allowed. */
  function Accepted(fs: seq<UpdateField>): (gs: seq<UpdateField>)
    ensures gs <= fs
    ensures forall i :: 0 <= i < |gs| ==> IsControl(gs[i])
    ensures |gs| < |fs| ==> !IsControl(fs[|gs|])
  {
    if fs == [] || !IsControl(fs[0]) then [] else [fs[0]] + Accepted(fs[1..])
  }

  /** The pending parameters: the values of registers 0, 1, ... up to the first one that
      is not pending. */
  function Pending(rs: seq<Option<u64>>): (ps: seq<u64>)
    ensures |ps| <= |rs|
    ensures forall i :: 0 <= i < |ps| ==> rs[i] == Some(ps[i])
    ensures |ps| < |rs| ==> rs[|ps|] == None
  {
    if rs == [] || rs[0] == None then [] else [rs[0].value] + Pending(rs[1..])
  }

  class StagedUpdate {
    const controlIsPending: array<bool>
    const controlRegisters: array<u64>
    var measureIsPending: bool
    var measureRegister: u64

    ghost predicate Valid()
      reads this
    {
      && controlIsPending.Length == controlRegisters.Length == REGISTERS
      && controlIsPending as object != controlRegisters as object
    }

    /** The register file as values. */
    ghost function Contents(): (rs: Registers)
      requires Valid()
      reads this, controlIsPending, controlRegisters
    {
      seq(REGISTERS, i requires 0 <= i < REGISTERS
          reads this, controlIsPending, controlRegisters
          requires Valid()
        => if controlIsPending[i] then Some(controlRegisters[i]) else None)
    }

    ghost function Measure(): Option<u64>
      reads this
    {
      if measureIsPending then Some(measureRegister) else None
    }

    /** The zeroed memory of a new connection. */
    constructor ()
      ensures Valid() && fresh(controlIsPending) && fresh(controlRegisters)
      ensures Contents() == Cleared() && Measure() == None
    {
      controlIsPending := new bool[REGISTERS](_ => false);
      controlRegisters := new u64[REGISTERS](_ => 0);
      measureIsPending := false;
      measureRegister := 0;
    }

    /** stage_update. */
    method Stage(f: UpdateField) returns (ok: bool)
      requires Valid() && (IsControl(f) ==> f.regIndex < REGISTERS)
      modifies controlIsPending, controlRegisters
      ensures ok == IsControl(f)
      ensures Contents() == if ok then old(Contents())[f.regIndex := Some(f.value)] else old(Contents())
    {
      if f.regType == NONVOLATILE_CONTROL_REG || f.regType == VOLATILE_CONTROL_REG {
        controlRegisters[f.regIndex] := f.value;
        controlIsPending[f.regIndex] := true;
        return true;
      }
      return false;
    }

    /** stage_multiple_updates: fields are staged in order up to the first bad one, and
        what was staged before it stays. */
    method StageMultiple(fs: seq<UpdateField>, ghost before: seq<UpdateField>) returns (ok: bool)
      requires Valid() && InRange(fs) && Contents() == LastWrites(before)
      modifies controlIsPending, controlRegisters
      ensures ok <==> forall i :: 0 <= i < |fs| ==> IsControl(fs[i])
      ensures Contents() == LastWrites(before + Accepted(fs))
    {
      assert before + [] == before;
      for i := 0 to |fs|
        invariant forall j :: 0 <= j < i ==> IsControl(fs[j])
        invariant Contents() == LastWrites(before + fs[..i])
      {
        ok := Stage(fs[i]);
        if !ok {
          AcceptedIs(fs, i);
          return;
        }
        WriteExtends(before + fs[..i], fs[i]);
        assert before + fs[..i] + [fs[i]] == before + fs[..i + 1];
      }
      AcceptedIs(fs, |fs|);
      return true;
    }

    /** stage_measure_request. */
    method StageMeasure(id: u64)
      modifies this
      ensures Measure() == Some(id)
    {
      measureIsPending := true;
      measureRegister := id;
    }

    /** The scan of spine_invoke over the pending registers. */
    method Collect() returns (params: seq<u64>)
      requires Valid()
      ensures params == Pending(Contents())
    {
      params := [];
      var i := 0;
      while i < REGISTERS
        invariant 0 <= i == |params| <= REGISTERS
        invariant forall j :: 0 <= j < i ==> Contents()[j] == Some(params[j])
      {
        if !controlIsPending[i] {
          break;
        }
        params := params + [controlRegisters[i]];
        i := i + 1;
      }
      PendingIs(Contents(), params);
    }

    /** `memset(&state->pending_update, 0, ...)`. */
    method Clear()
      requires Valid()
      modifies this, controlIsPending, controlRegisters
      ensures Contents() == Cleared() && Measure() == None
    {
      forall i | 0 <= i < REGISTERS {
        controlIsPending[i] := false;
      }
      forall i | 0 <= i < REGISTERS {
        controlRegisters[i] := 0;
      }
      measureIsPending := false;
      measureRegister := 0;
    }
  }

  /** A later write to a register hides the earlier ones. */
  lemma {:induction false} LaterWriteWins(before: seq<UpdateField>, fs: seq<UpdateField>, r: nat)
    ensures LastWrite(before + fs, r) == if LastWrite(fs, r).Some? then LastWrite(fs, r) else LastWrite(before, r)
  {
    if fs == [] {
      assert before + fs == before;
    } else {
      assert (before + fs)[..|before + fs| - 1] == before + fs[..|fs| - 1];
      LaterWriteWins(before, fs[..|fs| - 1], r);
    }
  }

  lemma WriteExtends(fs: seq<UpdateField>, f: UpdateField)
    requires f.regIndex < REGISTERS
    ensures LastWrites(fs + [f]) == LastWrites(fs)[f.regIndex := Some(f.value)]
  {
    assert (fs + [f])[..|fs|] == fs;
  }

  lemma {:induction false} AcceptedIs(fs: seq<UpdateField>, n: nat)
    requires n <= |fs| && forall i :: 0 <= i < n ==> IsControl(fs[i])
    requires n < |fs| ==> !IsControl(fs[n])
    ensures Accepted(fs) == fs[..n]
  {
    if n > 0 {
      AcceptedIs(fs[1..], n - 1);
      assert fs[..n] == [fs[0]] + fs[1..][..n - 1];
    }
  }

  /** Pending is the one list that agrees with the registers and stops at the first gap. */
  lemma {:induction false} PendingIs(rs: seq<Option<u64>>, ps: seq<u64>)
    requires |ps| <= |rs|
    requires forall i :: 0 <= i < |ps| ==> rs[i] == Some(ps[i])
    requires |ps| < |rs| ==> rs[|ps|] == None
    ensures Pending(rs) == ps
  {
    if ps != [] {
      PendingIs(rs[1..], ps[1..]);
    }
  }

  // ------------------------------------------------------------ what is delivered

  ghost predicate Writes(fs: seq<UpdateField>, r: nat) {
    exists k :: 0 <= k < |fs| && fs[k].regIndex == r
  }

  /** LastWrite is the value of the last field that names the register. */
  lemma {:induction false} LastWriteMeans(fs: seq<UpdateField>, r: nat)
    ensures LastWrite(fs, r).Some? <==> Writes(fs, r)
    ensures LastWrite(fs, r).Some? ==>
      exists k :: 0 <= k < |fs| && fs[k].regIndex == r && LastWrite(fs, r) == Some(fs[k].value)
        && forall j :: k < j < |fs| ==> fs[j].regIndex != r
  {
    if fs != [] && fs[|fs| - 1].regIndex != r {
      LastWriteMeans(fs[..|fs| - 1], r);
    }
  }

  /** The writes cover registers 0 to n - 1 and no others. */
  ghost predicate Contiguous(fs: seq<UpdateField>, n: nat) {
    n <= REGISTERS && forall r: nat :: Writes(fs, r) <==> r < n
  }

  /** Contiguous writes, in any order and with any repetitions, deliver exactly n values,
      for each register the one written last. */
  lemma ContiguousDelivery(fs: seq<UpdateField>, n: nat)
    requires Contiguous(fs, n)
    ensures |Pending(LastWrites(fs))| == n
    ensures forall r: nat :: r < n ==> LastWrite(fs, r) == Some(Pending(LastWrites(fs))[r])
  {
    var rs, ps := LastWrites(fs), Pending(LastWrites(fs));
    forall r: nat ensures LastWrite(fs, r).Some? <==> r < n {
      LastWriteMeans(fs, r);
      assert Writes(fs, r) <==> r < n;
    }
    assert |ps| < |rs| ==> rs[|ps|] == LastWrite(fs, |ps|);
    assert n < |rs| ==> rs[n] == LastWrite(fs, n);
  }

  /** A register above one that was not written is not delivered. */
  lemma NothingAboveAGap(fs: seq<UpdateField>, gap: nat)
    requires gap < REGISTERS && !Writes(fs, gap)
    ensures |Pending(LastWrites(fs))| <= gap
  {
    LastWriteMeans(fs, gap);
    assert LastWrites(fs)[gap] == None;
  }
}
