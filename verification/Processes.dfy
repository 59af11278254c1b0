/** The process table and the address spaces that processes own (src/kernel/process/process.c). */
module Processes {
  import opened Words
  import opened Pmm
  import opened Ownership
  import opened Paging

  const PROCESS_MAX: int := 8

  datatype ProcessState = Unused | Ready | Running | Terminated

  datatype Process = Process(id: nat, state: ProcessState, space: SpaceRef)

  /** Slots know their number; an unused slot refers to no address space. */
  ghost predicate TableOk(ps: seq<Process>) {
    |ps| == PROCESS_MAX
    && forall p: nat :: p < PROCESS_MAX ==>
         ps[p].id == p && (ps[p].state.Unused? ==> ps[p].space.NullSpace?)
         && (ps[p].space.Slot? ==> ps[p].space.i < MAX_ADDRESS_SPACES)
  }

  /** The first unused slot from the given one on, or PROCESS_MAX. */
  function FirstUnused(ps: seq<Process>, from: nat): (p: nat)
    requires |ps| == PROCESS_MAX && from <= PROCESS_MAX
    ensures from <= p <= PROCESS_MAX && (p < PROCESS_MAX ==> ps[p].state.Unused?)
    ensures forall q: nat :: from <= q < p ==> !ps[q].state.Unused?
    decreases PROCESS_MAX - from
  {
    if from == PROCESS_MAX then from else if ps[from].state.Unused? then from else FirstUnused(ps, from + 1)
  }

  lemma FirstUnusedIs(ps: seq<Process>, p: nat)
    requires |ps| == PROCESS_MAX && 1 <= p <= PROCESS_MAX && (p < PROCESS_MAX ==> ps[p].state.Unused?)
    requires forall q: nat :: 1 <= q < p ==> !ps[q].state.Unused?
    ensures FirstUnused(ps, 1) == p
  {
  }

  /** `process_create_kernel` and `process_create_user` */
  function Claim(ps: seq<Process>, p: nat, space: SpaceRef): seq<Process>
    requires |ps| == PROCESS_MAX && p < PROCESS_MAX
  {
    ps[p := Process(p, Ready, space)]
  }

  /** `process_destroy` */
  function Release(ps: seq<Process>, p: nat): seq<Process>
    requires |ps| == PROCESS_MAX && p < PROCESS_MAX
  {
    ps[p := ps[p].(state := Unused, space := NullSpace)]
  }

  /** Destroying a process that was just created restores the whole table. */
  lemma ReleaseUndoesClaim(ps: seq<Process>, p: nat, space: SpaceRef)
    requires TableOk(ps) && p < PROCESS_MAX && ps[p].state.Unused?
    ensures Release(Claim(ps, p, space), p) == ps
  {
  }

  /** Every address space in use belongs to exactly one process. */
  ghost predicate SpacesOwned(ps: seq<Process>, spaces: seq<Space>)
    requires |ps| == PROCESS_MAX && |spaces| == MAX_ADDRESS_SPACES
  {
    && (forall p: nat :: p < PROCESS_MAX && ps[p].space.Slot? ==>
          ps[p].space.i < MAX_ADDRESS_SPACES && spaces[ps[p].space.i].used)
    && (forall p: nat, q: nat :: p < q < PROCESS_MAX && ps[p].space.Slot? ==> ps[p].space != ps[q].space)
    && (forall i: nat :: i < MAX_ADDRESS_SPACES && spaces[i].used ==> exists p: nat :: OwnedBy(ps, i, p))
  }

  predicate OwnedBy(ps: seq<Process>, i: nat, p: nat) {
    p < |ps| && ps[p].space == Slot(i)
  }

  /** The new process is READY in its slot with its address space; nobody else is touched. */
  lemma Claimed(ps: seq<Process>, p: nat, space: SpaceRef)
    requires |ps| == PROCESS_MAX && p < PROCESS_MAX
    ensures var qs := Claim(ps, p, space);
            && qs[p].state.Ready? && qs[p].space == space && qs[p].id == p
            && forall q: nat :: q < PROCESS_MAX && q != p ==> qs[q] == ps[q]
  {
  }

  /** A new process takes a new address space. */
  lemma ClaimKeepsOwned(ps: seq<Process>, p: nat, spaces: seq<Space>, after: seq<Space>, i: nat)
    requires TableOk(ps) && p < PROCESS_MAX && ps[p].state.Unused? && |spaces| == |after| == MAX_ADDRESS_SPACES
    requires SpacesOwned(ps, spaces) && i < MAX_ADDRESS_SPACES && !spaces[i].used && after[i].used
    requires forall j: nat :: j < MAX_ADDRESS_SPACES && j != i ==> after[j].used == spaces[j].used
    ensures SpacesOwned(Claim(ps, p, Slot(i)), after)
  {
    var qs := Claim(ps, p, Slot(i));
    forall j: nat | j < MAX_ADDRESS_SPACES && after[j].used
      ensures exists q: nat :: OwnedBy(qs, j, q)
    {
      if j == i {
        assert OwnedBy(qs, j, p);
      } else {
        var q: nat :| OwnedBy(ps, j, q);
        assert OwnedBy(qs, j, q);
      }
    }
  }

  /** A new kernel process takes none. */
  lemma KernelKeepsOwned(ps: seq<Process>, p: nat, spaces: seq<Space>)
    requires TableOk(ps) && p < PROCESS_MAX && ps[p].state.Unused? && |spaces| == MAX_ADDRESS_SPACES
    requires SpacesOwned(ps, spaces)
    ensures SpacesOwned(Claim(ps, p, KernelSpace), spaces)
  {
    var qs := Claim(ps, p, KernelSpace);
    forall j: nat | j < MAX_ADDRESS_SPACES && spaces[j].used
      ensures exists q: nat :: OwnedBy(qs, j, q)
    {
      var q: nat :| OwnedBy(ps, j, q);
      assert OwnedBy(qs, j, q);
    }
  }

  class ProcessTable {
    const vm: AddressSpaces
    const processes: array<Process>
    var current: nat

    ghost predicate Valid()
      reads this, processes
    {
      processes.Length == PROCESS_MAX && processes !in vm.pmm.Repr && this !in vm.pmm.Repr && TableOk(processes[..])
    }

    constructor (vm: AddressSpaces)
      ensures this.vm == vm && fresh(processes) && processes.Length == PROCESS_MAX
    {
      this.vm := vm;
      processes := new Process[PROCESS_MAX](i => Process(0, Unused, NullSpace));
      current := 0;
    }

    /** `process_initialize` */
    method Initialize()
      requires processes.Length == PROCESS_MAX && processes !in vm.pmm.Repr && this !in vm.pmm.Repr
      modifies this`current, processes
      ensures Valid() && current == 0 && processes[0] == Process(0, Running, KernelSpace)
      ensures forall p: nat :: 0 < p < PROCESS_MAX ==> processes[p] == Process(p, Unused, NullSpace)
    {
      for i := 0 to PROCESS_MAX
        invariant forall p: nat :: p < i ==> processes[p] == Process(p, Unused, NullSpace)
      {
        processes[i] := Process(i, Unused, NullSpace);
      }
      processes[0] := processes[0].(state := Running, space := KernelSpace);
      current := 0;
    }

    /** The loop of both creating functions: the first unused slot behind slot 0. */
    method ClaimSlot(space: SpaceRef) returns (process: Option<nat>)
      requires Valid() && (space.Slot? ==> space.i < MAX_ADDRESS_SPACES)
      modifies processes
      ensures Valid()
      ensures var p := FirstUnused(old(processes[..]), 1);
              && process == (if p == PROCESS_MAX then None else Some(p))
              && processes[..] == if p == PROCESS_MAX then old(processes[..]) else Claim(old(processes[..]), p, space)
    {
      for i := 1 to PROCESS_MAX
        invariant forall p: nat :: 1 <= p < i ==> !processes[p].state.Unused?
        invariant processes[..] == old(processes[..])
      {
        if processes[i].state.Unused? {
          FirstUnusedIs(processes[..], i);
          processes[i] := Process(i, Ready, space);
          return Some(i);
        }
      }
      FirstUnusedIs(processes[..], PROCESS_MAX);
      process := None;
    }

    /** `process_create_kernel` */
    method CreateKernel() returns (process: Option<nat>)
      requires Valid()
      modifies processes
      ensures Valid()
      ensures var p := FirstUnused(old(processes[..]), 1);
              && process == (if p == PROCESS_MAX then None else Some(p))
              && processes[..] ==
                 if p == PROCESS_MAX then old(processes[..]) else Claim(old(processes[..]), p, KernelSpace)
    {
      process := ClaimSlot(KernelSpace);
    }

    /** `process_create_user` */
    method CreateUser(space: SpaceRef) returns (process: Option<nat>)
      requires Valid() && (space.Slot? ==> space.i < MAX_ADDRESS_SPACES)
      modifies processes
      ensures Valid()
      ensures var p := FirstUnused(old(processes[..]), 1);
              && process == (if space.NullSpace? || p == PROCESS_MAX then None else Some(p))
              && processes[..] == if process.None? then old(processes[..]) else Claim(old(processes[..]), p, space)
    {
      if space.NullSpace? {
        return None;
      }
      process := ClaimSlot(space);
    }

    /** `process_terminate` */
    method Terminate(process: Option<nat>)
      requires Valid() && (process.Some? ==> process.value < PROCESS_MAX && !processes[process.value].state.Unused?)
      modifies processes
      ensures Valid()
      ensures processes[..] ==
              if process.Some?
              then old(processes[..])[process.value := old(processes[..])[process.value].(state := Terminated)]
              else old(processes[..])
    {
      if process.Some? {
        processes[process.value] := processes[process.value].(state := Terminated);
      }
    }

    /** `process_destroy`: the slot is blank again, and a private address space is gone. Slot 0 is left alone. */
    method Destroy(process: Option<nat>)
      requires Valid() && vm.Valid() && (process.Some? ==> process.value < PROCESS_MAX)
      modifies processes, vm`ram, vm`spaces, vm`owner, vm`current, vm.pmm.Repr
      ensures Valid() && vm.Valid() && vm.pmm.Reserved() == old(vm.pmm.Reserved())
      ensures process.None? || process.value == 0 ==>
                processes[..] == old(processes[..]) && vm.State() == old(vm.State()) && vm.current == old(vm.current)
      ensures process.Some? && process.value != 0 ==> processes[..] == Release(old(processes[..]), process.value)
      ensures process.Some? && process.value != 0 ==>
                var space := old(processes[..])[process.value].space;
                if space.Slot? && Used(old(vm.State()), space.i)
                then Destroyed(old(vm.State()), vm.State(), space.i)
                     && vm.current == if old(vm.current) == old(vm.spaces)[space.i].directory then vm.kernelDirectory
                                      else old(vm.current)
                else vm.State() == old(vm.State()) && vm.current == old(vm.current)
    {
      hide AddressSpaces.Valid, FrameAllocator.Valid, FrameAllocator.Free, FrameAllocator.Reserved, Destroyed;
      if process.None? || processes[process.value].id == 0 {
        return;
      }
      var p := process.value;
      if processes[p].space != NullSpace && processes[p].space != KernelSpace {
        vm.DestroyAddressSpace(processes[p].space);
      }
      Footprint(vm);
      processes[p] := processes[p].(space := NullSpace);
      processes[p] := processes[p].(state := Unused);
    }
  }
}
