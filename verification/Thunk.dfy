/**
 The generator of 32-bit guest-to-host thunks: from a signature to x86 instructions that move
 the guest's arguments to where the host function expects them, on the host stack.
 */
module Thunk {
  import opened Wrappers

  datatype Register = Eax | Ecx | Edx | Ebp | Esp

  datatype Convention = Cdecl | Stdcall | Fastcall

  /** Sizes in bytes of the arguments and of the result, and the two calling conventions. */
  datatype Signature = Signature(args: seq<nat>, source: Convention, target: Convention, result: nat)

  // ----- argument layout

  datatype Placement = InRegister(register: Register) | OnStack(offset: nat)

  predicate Supported(args: seq<nat>) {
    forall i :: 0 <= i < |args| ==> args[i] <= 8
  }

  /** Supported arguments occupy one or two 32-bit slots. */
  function Slot(size: nat): nat {
    if size <= 4 then 4 else 8
  }

  function RegistersOf(c: Convention): seq<Register> {
    if c.Fastcall? then [Ecx, Edx] else []
  }

  /**
   Where each argument goes: leading one-slot arguments into the given registers while these
   last, and from the first other argument on everything onto the stack in order.
   */
  function Place(args: seq<nat>, registers: seq<Register>, offset: nat): (r: seq<Placement>)
    ensures |r| == |args|
  {
    if args == [] then []
    else if registers != [] && Slot(args[0]) == 4 then
      [InRegister(registers[0])] + Place(args[1..], registers[1..], offset)
    else
      [OnStack(offset)] + Place(args[1..], [], offset + Slot(args[0]))
  }

  /** Bytes of stack the layout takes. */
  function StackSize(args: seq<nat>, registers: seq<Register>): nat {
    if args == [] then 0
    else if registers != [] && Slot(args[0]) == 4 then StackSize(args[1..], registers[1..])
    else Slot(args[0]) + StackSize(args[1..], [])
  }

  lemma {:induction false} PlaceAppends(args: seq<nat>, size: nat, offset: nat)
    ensures Place(args + [size], [], offset) ==
            Place(args, [], offset) + [OnStack(offset + StackSize(args, []))]
    ensures StackSize(args + [size], []) == StackSize(args, []) + Slot(size)
    decreases |args|
  {
    if args == [] {
      assert args + [size] == [size] && [size][1..] == [];
    } else {
      assert (args + [size])[1..] == args[1..] + [size];
      PlaceAppends(args[1..], size, offset + Slot(args[0]));
    }
  }

  /** The first `n` registers as placements. */
  function InFirst(registers: seq<Register>, n: nat): (r: seq<Placement>)
    requires n <= |registers|
    ensures |r| == n && forall i :: 0 <= i < n ==> r[i] == InRegister(registers[i])
  {
    if n == 0 then [] else InFirst(registers, n - 1) + [InRegister(registers[n - 1])]
  }

  /** Once `n` leading arguments are in registers, what is left is laid out by itself. */
  ghost predicate Leading(args: seq<nat>, registers: seq<Register>, offset: nat, n: nat, left: seq<Register>) {
    && n <= |args| && n <= |registers|
    && Place(args, registers, offset) == InFirst(registers, n) + Place(args[n..], left, offset)
    && StackSize(args, registers) == StackSize(args[n..], left)
  }

  lemma LeadingStep(args: seq<nat>, registers: seq<Register>, offset: nat, n: nat)
    requires n <= |registers| && Leading(args, registers, offset, n, registers[n..])
    requires n < |registers| && n < |args| && Slot(args[n]) == 4
    ensures Leading(args, registers, offset, n + 1, registers[n + 1..])
  {
    var rest, left := args[n..], registers[n..];
    assert rest[1..] == args[n + 1..] && left[1..] == registers[n + 1..];
    assert Place(rest, left, offset) == [InRegister(left[0])] + Place(rest[1..], left[1..], offset);
  }

  lemma LeadingEnd(args: seq<nat>, registers: seq<Register>, offset: nat, n: nat)
    requires n <= |registers| && Leading(args, registers, offset, n, registers[n..])
    requires n == |registers| || n == |args| || Slot(args[n]) != 4
    ensures Leading(args, registers, offset, n, [])
  {
  }

  /** The loop that assigns leading arguments to registers and stops at the first that does not fit. */
  method LeadingRegisters(args: seq<nat>, registers: seq<Register>, ghost offset: nat)
    returns (n: nat, placements: seq<Placement>)
    ensures Leading(args, registers, offset, n, []) && placements == InFirst(registers, n)
  {
    n, placements := 0, [];
    assert args[0..] == args && registers[0..] == registers;
    while n < |registers| && n < |args| && Slot(args[n]) == 4
      invariant n <= |registers| && Leading(args, registers, offset, n, registers[n..]) && placements == InFirst(registers, n)
    {
      LeadingStep(args, registers, offset, n);
      placements := placements + [InRegister(registers[n])];
      n := n + 1;
    }
    LeadingEnd(args, registers, offset, n);
  }

  /** The layout of a signature's arguments under a convention, or nothing if one is too large. */
  method ComputeArgLayout(args: seq<nat>, c: Convention, stackOffset: nat)
    returns (layout: Option<(seq<Placement>, nat)>)
    ensures layout.Some? <==> Supported(args)
    ensures layout.Some? ==>
              layout.value == (Place(args, RegistersOf(c), stackOffset), StackSize(args, RegistersOf(c)))
  {
    for i := 0 to |args|
      invariant forall k :: 0 <= k < i ==> args[k] <= 8
    {
      if args[i] > 8 {
        return None;
      }
    }
    var n, placements := LeadingRegisters(args, RegistersOf(c), stackOffset);
    var stacked, stackSize := PushRest(args[n..], stackOffset);
    return Some((placements + stacked, stackSize));
  }

  /** The loop that puts the remaining arguments onto the stack. */
  method PushRest(args: seq<nat>, stackOffset: nat) returns (placements: seq<Placement>, stackSize: nat)
    ensures placements == Place(args, [], stackOffset) && stackSize == StackSize(args, [])
  {
    placements, stackSize := [], 0;
    for i := 0 to |args|
      invariant placements == Place(args[..i], [], stackOffset) && stackSize == StackSize(args[..i], [])
    {
      PlaceAppends(args[..i], args[i], stackOffset);
      assert args[..i] + [args[i]] == args[..i + 1];
      placements := placements + [OnStack(stackOffset + stackSize)];
      stackSize := stackSize + Slot(args[i]);
    }
    assert args[..|args|] == args;
  }

  // ----- the machine

  type Selector = s: int | 0 <= s < 0x1_0000

  /** Selectors and stack pointer kept in the thread block. */
  datatype Teb = Teb(fsSelector: Selector, gsSelector: Selector, stackPointer: int)

  /** Registers, segment selectors, memory by aligned double word, and the thread block. */
  datatype Machine = Machine(eax: int, ecx: int, edx: int, ebp: int, esp: int, eip: int, fs: Selector, gs: Selector,
                             memory: map<int, int>, teb: Teb)

  /** The fixed surroundings: where the thread block is, and which selectors reach it. */
  datatype World = World(tebAddress: int, guestFs: Selector, hostGs: Selector)

  datatype Instruction =
    | LoadTebGuest                                  // mov ecx, fs:[TEB_SELF]
    | LoadTebHost                                   // GET_TEB_HOST ecx
    | MovAxFs | MovAxGs                             // mov ax, fs / gs
    | MovDxFsSelector | MovDxGsSelector             // mov dx, word ptr [ecx+TEB_FS_SEL / TEB_GS_SEL]
    | MovFsSelectorAx | MovGsSelectorAx             // mov word ptr [ecx+...], ax
    | MovFsDx | MovGsDx                             // mov fs / gs, dx
    | MovEaxEsp | MovEspEbp
    | Push(r: Register) | Pop(r: Register)
    | MovEbpTebSp                                   // mov ebp, dword ptr [ecx+TEB_SP]
    | MovTebSpEsp                                   // mov dword ptr [ecx+TEB_SP], esp
    | SubEsp(n: nat)
    | AlignEsp                                      // and esp, ~15
    | LoadArgument(r: Register, offset: nat)        // mov r, [eax+offset]
    | StoreArgument(offset: nat)                    // mov [esp+offset], ecx
    | Call
    | Leave
    | Ret(n: nat)

  function Get(m: Machine, r: Register): int {
    match r
    case Eax => m.eax
    case Ecx => m.ecx
    case Edx => m.edx
    case Ebp => m.ebp
    case Esp => m.esp
  }

  function Set(m: Machine, r: Register, v: int): Machine {
    match r
    case Eax => m.(eax := v)
    case Ecx => m.(ecx := v)
    case Edx => m.(edx := v)
    case Ebp => m.(ebp := v)
    case Esp => m.(esp := v)
  }

  function Load(m: Machine, address: int): int {
    if address in m.memory then m.memory[address] else 0
  }

  function Store(m: Machine, address: int, v: int): Machine {
    m.(memory := m.memory[address := v])
  }

  /** Writing the low 16 bits of a register. */
  function SetLow(r: int, v: int): int {
    r - r % 0x1_0000 + v % 0x1_0000
  }

  /** The host function: any function from the machine at the call to the machine at its return. */
  type Callee = Machine -> Machine

  predicate Aligned(address: int) {
    address % 4 == 0
  }

  /**
   One instruction. Going through `ecx` faults unless it points to the thread block, and so does
   any access to memory that is not aligned, as memory is made of aligned double words.
   */
  function Execute(w: World, callee: Callee, i: Instruction, m: Machine): Option<Machine> {
    match i
    case LoadTebGuest => Some(m.(ecx := if m.fs == w.guestFs then w.tebAddress else 0))
    case LoadTebHost => Some(m.(ecx := if m.gs == w.hostGs then w.tebAddress else 0))
    case MovAxFs => Some(m.(eax := SetLow(m.eax, m.fs)))
    case MovAxGs => Some(m.(eax := SetLow(m.eax, m.gs)))
    case MovFsDx => Some(m.(fs := m.edx % 0x1_0000))
    case MovGsDx => Some(m.(gs := m.edx % 0x1_0000))
    case MovEaxEsp => Some(m.(eax := m.esp))
    case MovEspEbp => Some(m.(esp := m.ebp))
    case Push(r) => if !Aligned(m.esp) then None else Some(Store(m, m.esp - 4, Get(m, r)).(esp := m.esp - 4))
    case Pop(r) => if !Aligned(m.esp) then None else Some(Set(m.(esp := m.esp + 4), r, Load(m, m.esp)))
    case SubEsp(n) => Some(m.(esp := m.esp - n))
    case AlignEsp => Some(m.(esp := m.esp - m.esp % 16))
    case LoadArgument(r, offset) =>
      if !Aligned(m.eax + offset) then None else Some(Set(m, r, Load(m, m.eax + offset)))
    case StoreArgument(offset) =>
      if !Aligned(m.esp + offset) then None else Some(Store(m, m.esp + offset, m.ecx))
    case Call => Some(callee(m))
    case Leave => if !Aligned(m.ebp) then None else Some(m.(esp := m.ebp + 4, ebp := Load(m, m.ebp)))
    case Ret(n) => if !Aligned(m.esp) then None else Some(m.(eip := Load(m, m.esp), esp := m.esp + 4 + n))
    case MovDxFsSelector => if m.ecx != w.tebAddress then None else Some(m.(edx := SetLow(m.edx, m.teb.fsSelector)))
    case MovDxGsSelector => if m.ecx != w.tebAddress then None else Some(m.(edx := SetLow(m.edx, m.teb.gsSelector)))
    case MovFsSelectorAx =>
      if m.ecx != w.tebAddress then None else Some(m.(teb := m.teb.(fsSelector := m.eax % 0x1_0000)))
    case MovGsSelectorAx =>
      if m.ecx != w.tebAddress then None else Some(m.(teb := m.teb.(gsSelector := m.eax % 0x1_0000)))
    case MovEbpTebSp => if m.ecx != w.tebAddress then None else Some(m.(ebp := m.teb.stackPointer))
    case MovTebSpEsp => if m.ecx != w.tebAddress then None else Some(m.(teb := m.teb.(stackPointer := m.esp)))
  }

  function Run(w: World, callee: Callee, code: seq<Instruction>, m: Machine): Option<Machine>
    decreases |code|
  {
    if code == [] then Some(m)
    else
      match Execute(w, callee, code[0], m)
      case None => None
      case Some(m') => Run(w, callee, code[1..], m')
  }

  lemma {:induction false} RunAppends(w: World, callee: Callee, a: seq<Instruction>, b: seq<Instruction>, m: Machine)
    ensures Run(w, callee, a + b, m) ==
            match Run(w, callee, a, m) case None => None case Some(m') => Run(w, callee, b, m')
    decreases |a|
  {
    if a == [] {
      assert a + b == b;
    } else {
      assert (a + b)[1..] == a[1..] + b;
      var r := Execute(w, callee, a[0], m);
      if r.Some? {
        RunAppends(w, callee, a[1..], b, r.value);
      }
    }
  }

  // ----- the generator

  const SWAP_FS: seq<Instruction> := [MovAxFs, MovDxFsSelector, MovFsSelectorAx, MovFsDx]
  const SWAP_GS: seq<Instruction> := [MovAxGs, MovDxGsSelector, MovGsSelectorAx, MovGsDx]

  /** Swapping fs and gs with the selectors in the thread block. */
  const SWAP_SEGMENTS: seq<Instruction> := SWAP_FS + SWAP_GS

  /** The switch of stacks; what is pushed is the guest's frame pointer. */
  const SWITCH_STACK: seq<Instruction> := [Push(Ebp), MovEbpTebSp, MovTebSpEsp, MovEspEbp]

  /** Room for the arguments, and the alignment. */
  function MakeRoom(stackSize: nat): seq<Instruction> {
    (if stackSize > 0 then [SubEsp(stackSize)] else []) + [AlignEsp]
  }

  /** Copying one argument, word by word, from the guest stack to the host stack. */
  function CopyWords(slot: nat, from: nat, to: nat): seq<Instruction> {
    [LoadArgument(Ecx, from), StoreArgument(to)] +
    (if slot == 8 then [LoadArgument(Ecx, from + 4), StoreArgument(to + 4)] else [])
  }

  /** The copies for all arguments that go to the host stack. */
  function Copies(args: seq<nat>, source: seq<Placement>, target: seq<Placement>): seq<Instruction>
    requires |args| == |source| == |target| && forall i :: 0 <= i < |source| ==> source[i].OnStack?
  {
    if args == [] then []
    else
      (if target[0].OnStack? then CopyWords(Slot(args[0]), source[0].offset, target[0].offset) else []) +
      Copies(args[1..], source[1..], target[1..])
  }

  /** The loads for all arguments that go into registers. */
  function Loads(source: seq<Placement>, target: seq<Placement>): seq<Instruction>
    requires |source| == |target| && forall i :: 0 <= i < |source| ==> source[i].OnStack?
  {
    if source == [] then []
    else
      (if target[0].InRegister? then [LoadArgument(target[0].register, source[0].offset)] else []) +
      Loads(source[1..], target[1..])
  }

  /** Finding the thread block, exchanging the segments, and keeping the guest stack pointer if it is needed. */
  function ToHostSegments(hasArgs: bool): seq<Instruction> {
    [LoadTebGuest] + SWAP_SEGMENTS + (if hasArgs then [MovEaxEsp] else [])
  }

  /** Up to and including the switch to the host stack. */
  function Prologue(hasArgs: bool, stackSize: nat): seq<Instruction> {
    ToHostSegments(hasArgs) + (SWITCH_STACK + MakeRoom(stackSize))
  }

  /** Keeping the result on the host stack while the segments are exchanged. */
  function SaveResult(result: nat): seq<Instruction> {
    (if result > 0 then [Push(Eax)] else []) + (if result > 4 then [Push(Edx)] else [])
  }

  function RestoreResult(result: nat): seq<Instruction> {
    (if result > 4 then [Pop(Edx)] else []) + (if result > 0 then [Pop(Eax)] else [])
  }

  /** Taking up the saved stack pointers again. */
  const SWITCH_BACK: seq<Instruction> := [MovEspEbp, MovEbpTebSp, MovTebSpEsp]

  /** From the return of the host function to the return to the guest. */
  function Epilogue(result: nat, pop: nat): seq<Instruction> {
    SaveResult(result) + ([LoadTebHost] + SWAP_SEGMENTS) + RestoreResult(result) + (SWITCH_BACK + [Leave, Ret(pop)])
  }

  /** What the emitter supports: small arguments, all of them on the guest stack, and a small result. */
  predicate Emittable(f: Signature) {
    && Supported(f.args) && f.result <= 8
    && forall i :: 0 <= i < |f.args| ==> SourceOf(f)[i].OnStack?
  }

  function SourceOf(f: Signature): (r: seq<Placement>)
    ensures |r| == |f.args|
  {
    Place(f.args, RegistersOf(f.source), 4)
  }

  function TargetOf(f: Signature): (r: seq<Placement>)
    ensures |r| == |f.args|
  {
    Place(f.args, RegistersOf(f.target), 0)
  }

  function SourceSize(f: Signature): nat {
    StackSize(f.args, RegistersOf(f.source))
  }

  function TargetSize(f: Signature): nat {
    StackSize(f.args, RegistersOf(f.target))
  }

  /** The bytes of arguments that the thunk takes off the guest stack. */
  function Popped(f: Signature): nat {
    if f.source.Stdcall? then SourceSize(f) else 0
  }

  /** The bytes of arguments that the guest function's convention makes the callee take off the stack. */
  function ConventionPops(f: Signature): nat {
    if f.source.Cdecl? then 0 else SourceSize(f)
  }

  /** Everything before the call of the host function. */
  function Entry(f: Signature): seq<Instruction>
    requires Emittable(f)
  {
    Prologue(f.args != [], TargetSize(f)) + Copies(f.args, SourceOf(f), TargetOf(f)) + Loads(SourceOf(f), TargetOf(f))
  }

  function Thunk(f: Signature): seq<Instruction>
    requires Emittable(f)
  {
    Entry(f) + [Call] + Epilogue(f.result, Popped(f))
  }

  /** The emitter: appends the instructions in order, or gives up on a signature it does not support. */
  method EmitThunk(f: Signature) returns (code: Option<seq<Instruction>>)
    ensures code.Some? <==> Emittable(f)
    ensures code.Some? ==> code.value == Thunk(f)
  {
    var sourceLayout := ComputeArgLayout(f.args, f.source, 4);
    var targetLayout := ComputeArgLayout(f.args, f.target, 0);
    if sourceLayout.None? || targetLayout.None? {
      return None;
    }
    var source, target := sourceLayout.value.0, targetLayout.value.0;
    var lines := Prologue(|f.args| > 0, targetLayout.value.1);
    assert source == SourceOf(f) && target == TargetOf(f);
    var onStack := AllOnStack(source);
    if !onStack || f.result > 8 {
      return None;
    }
    var copies := EmitCopies(f.args, source, target);
    var loads := EmitLoads(source, target);
    lines := lines + copies + loads + [Call];
    return Some(lines + Epilogue(f.result, if f.source.Stdcall? then sourceLayout.value.1 else 0));
  }

  method AllOnStack(p: seq<Placement>) returns (all: bool)
    ensures all <==> forall i :: 0 <= i < |p| ==> p[i].OnStack?
  {
    for i := 0 to |p|
      invariant forall k :: 0 <= k < i ==> p[k].OnStack?
    {
      if p[i].InRegister? {
        return false;
      }
    }
    return true;
  }

  lemma CopiesStep(lines: seq<Instruction>, args: seq<nat>, source: seq<Placement>, target: seq<Placement>, i: nat)
    requires |args| == |source| == |target| && forall k :: 0 <= k < |source| ==> source[k].OnStack?
    requires i < |args|
    ensures
      var next := if target[i].OnStack? then CopyWords(Slot(args[i]), source[i].offset, target[i].offset) else [];
      lines + Copies(args[i..], source[i..], target[i..]) ==
      lines + next + Copies(args[i + 1..], source[i + 1..], target[i + 1..])
  {
    assert args[i..][1..] == args[i + 1..] && source[i..][1..] == source[i + 1..] && target[i..][1..] == target[i + 1..];
  }

  method EmitCopies(args: seq<nat>, source: seq<Placement>, target: seq<Placement>)
    returns (lines: seq<Instruction>)
    requires |args| == |source| == |target| && forall i :: 0 <= i < |source| ==> source[i].OnStack?
    ensures lines == Copies(args, source, target)
  {
    lines := [];
    var i := 0;
    assert args[0..] == args && source[0..] == source && target[0..] == target;
    assert [] + Copies(args, source, target) == Copies(args, source, target);
    while i < |args|
      invariant 0 <= i <= |args|
      invariant lines + Copies(args[i..], source[i..], target[i..]) == Copies(args, source, target)
    {
      CopiesStep(lines, args, source, target, i);
      if target[i].OnStack? {
        lines := lines + CopyWords(Slot(args[i]), source[i].offset, target[i].offset);
      } else {
        assert lines + [] == lines;
      }
      i := i + 1;
    }
    assert lines + [] == lines;
  }

  lemma LoadsStep(lines: seq<Instruction>, source: seq<Placement>, target: seq<Placement>, i: nat)
    requires |source| == |target| && forall k :: 0 <= k < |source| ==> source[k].OnStack?
    requires i < |source|
    ensures
      var next := if target[i].InRegister? then [LoadArgument(target[i].register, source[i].offset)] else [];
      lines + Loads(source[i..], target[i..]) == lines + next + Loads(source[i + 1..], target[i + 1..])
  {
    assert source[i..][1..] == source[i + 1..] && target[i..][1..] == target[i + 1..];
  }

  method EmitLoads(source: seq<Placement>, target: seq<Placement>) returns (lines: seq<Instruction>)
    requires |source| == |target| && forall i :: 0 <= i < |source| ==> source[i].OnStack?
    ensures lines == Loads(source, target)
  {
    lines := [];
    var i := 0;
    assert source[0..] == source && target[0..] == target;
    assert [] + Loads(source, target) == Loads(source, target);
    while i < |source|
      invariant 0 <= i <= |source|
      invariant lines + Loads(source[i..], target[i..]) == Loads(source, target)
    {
      LoadsStep(lines, source, target, i);
      if target[i].InRegister? {
        lines := lines + [LoadArgument(target[i].register, source[i].offset)];
      } else {
        assert lines + [] == lines;
      }
      i := i + 1;
    }
    assert lines + [] == lines;
  }

  // ----- what the layouts mean

  /** The first argument that is not put into a register, and all that follow, go onto the stack. */
  lemma {:induction false} WhoGetsARegister(args: seq<nat>, registers: seq<Register>, offset: nat, i: nat)
    requires i < |args|
    ensures Place(args, registers, offset)[i].InRegister? <==>
            i < |registers| && forall j :: 0 <= j <= i ==> args[j] <= 4
    ensures Place(args, registers, offset)[i].InRegister? ==>
              Place(args, registers, offset)[i].register == registers[i]
    decreases |args|
  {
    if i > 0 {
      var rest := args[1..];
      if registers != [] && Slot(args[0]) == 4 {
        WhoGetsARegister(rest, registers[1..], offset, i - 1);
        if forall j :: 0 <= j <= i - 1 ==> rest[j] <= 4 {
          forall j | 0 <= j <= i ensures args[j] <= 4 {
            assert j > 0 ==> args[j] == rest[j - 1];
          }
        }
      } else {
        WhoGetsARegister(rest, [], offset + Slot(args[0]), i - 1);
      }
    }
  }

  /** Bytes of stack taken by the arguments before the `i`-th. */
  function Before(args: seq<nat>, registers: seq<Register>, i: nat): nat
    requires i <= |args|
  {
    StackSize(args[..i], registers)
  }

  /** The stack arguments lie back to back in their order, inside the stack size. */
  lemma {:induction false} StackIsPacked(args: seq<nat>, registers: seq<Register>, offset: nat, i: nat)
    requires i < |args| && Place(args, registers, offset)[i].OnStack?
    ensures Place(args, registers, offset)[i].offset == offset + Before(args, registers, i)
    ensures Before(args, registers, i) + Slot(args[i]) <= StackSize(args, registers)
    decreases |args|
  {
    if i > 0 {
      var rest := args[1..];
      assert args[..i][1..] == rest[..i - 1];
      if registers != [] && Slot(args[0]) == 4 {
        StackIsPacked(rest, registers[1..], offset, i - 1);
      } else {
        StackIsPacked(rest, [], offset + Slot(args[0]), i - 1);
      }
    }
  }

  /** A layout without registers in it is the layout of a convention without registers. */
  lemma SourceIsAllStack(f: Signature)
    requires Emittable(f)
    ensures SourceOf(f) == Place(f.args, [], 4) && SourceSize(f) == StackSize(f.args, [])
  {
    if f.args != [] {
      assert SourceOf(f)[0].OnStack?;
    }
  }

  /** The signatures the emitter accepts. */
  lemma EmittableWhen(f: Signature)
    ensures Emittable(f) <==>
            && (forall i :: 0 <= i < |f.args| ==> f.args[i] <= 8) && f.result <= 8
            && (f.source.Fastcall? && f.args != [] ==> f.args[0] > 4)
  {
    if f.args != [] {
      WhoGetsARegister(f.args, RegistersOf(f.source), 4, 0);
      assert SourceOf(f)[0].OnStack? <==> !(f.source.Fastcall? && f.args[0] <= 4);
    }
    forall i | 0 <= i < |f.args| && (f.source.Fastcall? ==> f.args[0] > 4)
      ensures SourceOf(f)[i].OnStack?
    {
      WhoGetsARegister(f.args, RegistersOf(f.source), 4, i);
    }
  }

  /** A fastcall function with any argument at all. */
  predicate FastcallWithArguments(f: Signature) {
    f.source.Fastcall? && f.args != []
  }

  /** The thunk pops what the convention asks for, except that it leaves the arguments of every fastcall function. */
  lemma PopsWhatTheConventionAsks(f: Signature)
    requires Emittable(f)
    ensures Popped(f) == ConventionPops(f) <==> !FastcallWithArguments(f)
  {
    SourceIsAllStack(f);
  }

  /** A fastcall function of one 8-byte argument gets a thunk, which leaves those 8 bytes on the guest's stack. */
  lemma FastcallLeavesItsArgument()
    ensures
      var f := Signature([8], Fastcall, Cdecl, 4);
      Emittable(f) && ConventionPops(f) == 8 && Popped(f) == 0
  {
    var f := Signature([8], Fastcall, Cdecl, 4);
    EmittableWhen(f);
    SourceIsAllStack(f);
    assert StackSize(f.args, []) == 8 + StackSize(f.args[1..], []);
  }

  // ----- running the pieces

  lemma Chain(w: World, callee: Callee, a: seq<Instruction>, b: seq<Instruction>, m: Machine, x: Machine, y: Machine)
    requires Run(w, callee, a, m) == Some(x) && Run(w, callee, b, x) == Some(y)
    ensures Run(w, callee, a + b, m) == Some(y)
  {
    RunAppends(w, callee, a, b, m);
  }

  /** Straight-line code, from the machines before and after each instruction. */
  lemma {:induction false} Trace(w: World, callee: Callee, code: seq<Instruction>, ms: seq<Machine>)
    requires |ms| == |code| + 1
    requires forall k :: 0 <= k < |code| ==> Execute(w, callee, code[k], ms[k]) == Some(ms[k + 1])
    ensures Run(w, callee, code, ms[0]) == Some(ms[|code|])
    decreases |code|
  {
    if code != [] {
      Trace(w, callee, code[1..], ms[1..]);
    }
  }

  /** The machine after the segment registers were exchanged with the selectors in the thread block. */
  function Swapped(m: Machine, eax: int, edx: int): Machine {
    m.(eax := eax, edx := edx, fs := m.teb.fsSelector, gs := m.teb.gsSelector,
       teb := m.teb.(fsSelector := m.fs, gsSelector := m.gs))
  }

  lemma LowHalf(r: int, v: Selector)
    ensures SetLow(r, v) % 0x1_0000 == v
  {
  }

  lemma SwapRuns(w: World, callee: Callee, m: Machine) returns (eax: int, edx: int)
    requires m.ecx == w.tebAddress
    ensures Run(w, callee, SWAP_SEGMENTS, m) == Some(Swapped(m, eax, edx))
  {
    var m4 := SwapFsRuns(w, callee, m);
    eax, edx := SetLow(m4.eax, m.gs), SetLow(m4.edx, m.teb.gsSelector);
    LowHalf(m4.eax, m.gs);
    LowHalf(m4.edx, m.teb.gsSelector);
    var m5 := m4.(eax := eax);
    var m6 := m5.(edx := edx);
    var m7 := m6.(teb := m4.teb.(gsSelector := m.gs));
    Trace(w, callee, SWAP_GS, [m4, m5, m6, m7, m7.(gs := m.teb.gsSelector)]);
    Chain(w, callee, SWAP_FS, SWAP_GS, m, m4, Swapped(m, eax, edx));
  }

  lemma SwapFsRuns(w: World, callee: Callee, m: Machine) returns (m': Machine)
    requires m.ecx == w.tebAddress
    ensures Run(w, callee, SWAP_FS, m) == Some(m')
    ensures m' == m.(eax := m'.eax, edx := m'.edx, fs := m.teb.fsSelector, teb := m.teb.(fsSelector := m.fs))
  {
    var m1 := m.(eax := SetLow(m.eax, m.fs));
    var m2 := m1.(edx := SetLow(m.edx, m.teb.fsSelector));
    var m3 := m2.(teb := m.teb.(fsSelector := m.fs));
    LowHalf(m.eax, m.fs);
    LowHalf(m.edx, m.teb.fsSelector);
    m' := m3.(fs := m.teb.fsSelector);
    Trace(w, callee, SWAP_FS, [m, m1, m2, m3, m']);
  }

  function Down16(address: int): int {
    address - address % 16
  }

  lemma SwitchRuns(w: World, callee: Callee, m: Machine)
    requires m.ecx == w.tebAddress && Aligned(m.esp)
    ensures Run(w, callee, SWITCH_STACK, m) ==
            Some(Store(m, m.esp - 4, m.ebp).(ebp := m.teb.stackPointer, esp := m.teb.stackPointer,
                                             teb := m.teb.(stackPointer := m.esp - 4)))
  {
    var m1 := Store(m, m.esp - 4, m.ebp).(esp := m.esp - 4);
    var m2 := m1.(ebp := m.teb.stackPointer);
    var m3 := m2.(teb := m.teb.(stackPointer := m.esp - 4));
    Trace(w, callee, SWITCH_STACK, [m, m1, m2, m3, m3.(esp := m.teb.stackPointer)]);
  }

  lemma RoomRuns(w: World, callee: Callee, m: Machine, n: nat)
    ensures Run(w, callee, MakeRoom(n), m) == Some(m.(esp := Down16(m.esp - n)))
  {
    var m1 := m.(esp := m.esp - n);
    Trace(w, callee, MakeRoom(n), (if n > 0 then [m] else []) + [m1, m.(esp := Down16(m1.esp))]);
  }

  /** The machine once on the host stack. The argument pointer `eax` is set only when it is needed. */
  function OnHostStack(w: World, m: Machine, n: nat, eax: int, edx: int): Machine {
    Machine(eax, w.tebAddress, edx, m.teb.stackPointer, Down16(m.teb.stackPointer - n), m.eip,
            m.teb.fsSelector, m.teb.gsSelector, m.memory[m.esp - 4 := m.ebp], Teb(m.fs, m.gs, m.esp - 4))
  }

  lemma TebRuns(w: World, callee: Callee, m: Machine) returns (eax: int, edx: int)
    requires m.fs == w.guestFs
    ensures Run(w, callee, [LoadTebGuest] + SWAP_SEGMENTS, m) == Some(Swapped(m.(ecx := w.tebAddress), eax, edx))
  {
    var m1 := m.(ecx := w.tebAddress);
    Trace(w, callee, [LoadTebGuest], [m, m1]);
    eax, edx := SwapRuns(w, callee, m1);
    Chain(w, callee, [LoadTebGuest], SWAP_SEGMENTS, m, m1, Swapped(m1, eax, edx));
  }

  lemma ArgumentPointerRuns(w: World, callee: Callee, m: Machine, hasArgs: bool)
    ensures Run(w, callee, if hasArgs then [MovEaxEsp] else [], m) == Some(if hasArgs then m.(eax := m.esp) else m)
  {
    Trace(w, callee, [MovEaxEsp], [m, m.(eax := m.esp)]);
  }

  /** Up to the push: segments exchanged, argument pointer set if there are arguments. */
  lemma SegmentsRun(w: World, callee: Callee, m: Machine, hasArgs: bool) returns (eax: int, edx: int)
    requires m.fs == w.guestFs
    ensures Run(w, callee, ToHostSegments(hasArgs), m) == Some(Swapped(m.(ecx := w.tebAddress), eax, edx))
    ensures hasArgs ==> eax == m.esp
  {
    eax, edx := TebRuns(w, callee, m);
    var m1 := Swapped(m.(ecx := w.tebAddress), eax, edx);
    ArgumentPointerRuns(w, callee, m1, hasArgs);
    var m2 := if hasArgs then m1.(eax := m1.esp) else m1;
    Chain(w, callee, [LoadTebGuest] + SWAP_SEGMENTS, if hasArgs then [MovEaxEsp] else [], m, m1, m2);
    eax := m2.eax;
  }

  lemma StackRuns(w: World, callee: Callee, m: Machine, n: nat)
    requires m.ecx == w.tebAddress && Aligned(m.esp)
    ensures Run(w, callee, SWITCH_STACK + MakeRoom(n), m) ==
            Some(Store(m, m.esp - 4, m.ebp).(ebp := m.teb.stackPointer, esp := Down16(m.teb.stackPointer - n),
                                             teb := m.teb.(stackPointer := m.esp - 4)))
  {
    SwitchRuns(w, callee, m);
    var m1 := Store(m, m.esp - 4, m.ebp).(ebp := m.teb.stackPointer, esp := m.teb.stackPointer,
                                          teb := m.teb.(stackPointer := m.esp - 4));
    RoomRuns(w, callee, m1, n);
    Chain(w, callee, SWITCH_STACK, MakeRoom(n), m, m1, m1.(esp := Down16(m1.esp - n)));
  }

  lemma PrologueRuns(w: World, callee: Callee, m: Machine, hasArgs: bool, n: nat) returns (eax: int, edx: int)
    requires m.fs == w.guestFs && Aligned(m.esp)
    ensures Run(w, callee, Prologue(hasArgs, n), m) == Some(OnHostStack(w, m, n, eax, edx))
    ensures hasArgs ==> eax == m.esp
  {
    eax, edx := SegmentsRun(w, callee, m, hasArgs);
    var m1 := Swapped(m.(ecx := w.tebAddress), eax, edx);
    StackRuns(w, callee, m1, n);
    Chain(w, callee, ToHostSegments(hasArgs), SWITCH_STACK + MakeRoom(n), m, m1, OnHostStack(w, m, n, eax, edx));
  }

  // ----- copying arguments

  /** One machine differs from another only in `ecx` and in memory cells from `low` up to `high`. */
  ghost predicate OnlyWrote(m: Machine, m': Machine, low: int, high: int) {
    && m' == m.(ecx := m'.ecx, memory := m'.memory)
    && forall a :: !(low <= a < high) ==> Load(m', a) == Load(m, a)
  }

  /** The words of one argument at `to` are those that were at `from`. */
  ghost predicate SameWords(m: Machine, from: int, m': Machine, to: int, slot: nat) {
    Load(m', to) == Load(m, from) && (slot == 8 ==> Load(m', to + 4) == Load(m, from + 4))
  }

  lemma CopyWordRuns(w: World, callee: Callee, m: Machine, from: nat, to: nat) returns (m': Machine)
    requires Aligned(m.eax + from) && Aligned(m.esp + to)
    ensures Run(w, callee, [LoadArgument(Ecx, from), StoreArgument(to)], m) == Some(m')
    ensures m' == m.(ecx := m'.ecx, memory := m.memory[m.esp + to := Load(m, m.eax + from)])
  {
    var m1 := m.(ecx := Load(m, m.eax + from));
    m' := Store(m1, m.esp + to, m1.ecx);
    Trace(w, callee, [LoadArgument(Ecx, from), StoreArgument(to)], [m, m1, m']);
  }

  lemma TwoWords(m: Machine, from: int, m1: Machine, m': Machine, to: int)
    requires from + 8 <= to || to + 8 <= from
    requires m1 == m.(ecx := m1.ecx, memory := m.memory[to := Load(m, from)])
    requires m' == m1.(ecx := m'.ecx, memory := m1.memory[to + 4 := Load(m1, from + 4)])
    ensures OnlyWrote(m, m', to, to + 8) && SameWords(m, from, m', to, 8)
  {
  }

  lemma CopyRuns(w: World, callee: Callee, m: Machine, slot: nat, from: nat, to: nat) returns (m': Machine)
    requires slot == 4 || slot == 8
    requires Aligned(m.eax + from) && Aligned(m.esp + to)
    requires m.eax + from + slot <= m.esp + to || m.esp + to + slot <= m.eax + from
    ensures Run(w, callee, CopyWords(slot, from, to), m) == Some(m')
    ensures OnlyWrote(m, m', m.esp + to, m.esp + to + slot)
    ensures SameWords(m, m.eax + from, m', m.esp + to, slot)
  {
    m' := CopyWordRuns(w, callee, m, from, to);
    if slot == 8 {
      var m1 := m';
      NextWordAligned(m.eax, from);
      NextWordAligned(m.esp, to);
      m' := CopyWordRuns(w, callee, m1, from + 4, to + 4);
      TwoWords(m, m.eax + from, m1, m', m.esp + to);
      Chain(w, callee, [LoadArgument(Ecx, from), StoreArgument(to)],
            [LoadArgument(Ecx, from + 4), StoreArgument(to + 4)], m, m1, m');
    } else {
      OneWord(m, m.eax + from, m', m.esp + to);
      assert CopyWords(slot, from, to) == [LoadArgument(Ecx, from), StoreArgument(to)];
    }
  }

  lemma NextWordAligned(base: int, offset: nat)
    requires Aligned(base + offset)
    ensures Aligned(base + (offset + 4))
  {
  }

  lemma OneWord(m: Machine, from: int, m': Machine, to: int)
    requires m' == m.(ecx := m'.ecx, memory := m.memory[to := Load(m, from)])
    ensures OnlyWrote(m, m', to, to + 4) && SameWords(m, from, m', to, 4)
  {
  }

  /** Guest arguments and host arguments are word-aligned and do not overlap. */
  ghost predicate Apart(m: Machine, args: seq<nat>, registers: seq<Register>, from: nat, to: nat) {
    && Aligned(m.eax + from) && Aligned(m.esp + to)
    && (|| m.eax + from + StackSize(args, []) <= m.esp + to
        || m.esp + to + StackSize(args, registers) <= m.eax + from)
  }

  function CopiesFor(args: seq<nat>, registers: seq<Register>, from: nat, to: nat): seq<Instruction> {
    Copies(args, AllStack(args, from), Place(args, registers, to))
  }

  function AllStack(args: seq<nat>, from: nat): (r: seq<Placement>)
    ensures |r| == |args| && forall i :: 0 <= i < |r| ==> r[i].OnStack?
  {
    forall i | 0 <= i < |args| ensures Place(args, [], from)[i].OnStack? {
      WhoGetsARegister(args, [], from, i);
    }
    Place(args, [], from)
  }

  /** What is left to copy after the first argument. */
  lemma CopiesUnfold(args: seq<nat>, registers: seq<Register>, from: nat, to: nat)
    requires args != []
    ensures
      var slot := Slot(args[0]);
      if registers != [] && slot == 4 then
        CopiesFor(args, registers, from, to) == CopiesFor(args[1..], registers[1..], from + slot, to)
      else
        CopiesFor(args, registers, from, to) ==
        CopyWords(slot, from, to) + CopiesFor(args[1..], [], from + slot, to + slot)
  {
    var slot := Slot(args[0]);
    assert AllStack(args, from)[1..] == AllStack(args[1..], from + slot);
    if registers != [] && slot == 4 {
      assert Place(args, registers, to)[1..] == Place(args[1..], registers[1..], to);
    } else {
      assert Place(args, registers, to)[1..] == Place(args[1..], [], to + slot);
    }
  }

  /** The copies write the stack arguments of the host, `ecx`, and nothing else. */
  lemma {:induction false} CopiesRun(w: World, callee: Callee, m: Machine, args: seq<nat>, registers: seq<Register>,
                                     from: nat, to: nat) returns (m': Machine)
    requires Apart(m, args, registers, from, to)
    ensures Run(w, callee, CopiesFor(args, registers, from, to), m) == Some(m')
    ensures OnlyWrote(m, m', m.esp + to, m.esp + to + StackSize(args, registers))
    ensures AllCopied(m, m', args, registers, from, to)
    decreases |args|
  {
    if args == [] {
      return m;
    }
    CopiesUnfold(args, registers, from, to);
    var slot, rest := Slot(args[0]), args[1..];
    if registers != [] && slot == 4 {
      m' := CopiesRun(w, callee, m, rest, registers[1..], from + slot, to);
      CopiedAfterRegister(m, m', args, registers, from, to);
    } else {
      var m1 := CopyRuns(w, callee, m, slot, from, to);
      ApartRest(m, m1, args, registers, from, to);
      m' := CopiesRun(w, callee, m1, rest, [], from + slot, to + slot);
      Chain(w, callee, CopyWords(slot, from, to), CopiesFor(rest, [], from + slot, to + slot), m, m1, m');
      CopiedAfterStack(m, m1, m', args, registers, from, to);
    }
  }

  lemma ApartRest(m: Machine, m1: Machine, args: seq<nat>, registers: seq<Register>, from: nat, to: nat)
    requires args != [] && !(registers != [] && Slot(args[0]) == 4) && Apart(m, args, registers, from, to)
    requires m1.eax == m.eax && m1.esp == m.esp
    ensures Apart(m1, args[1..], [], from + Slot(args[0]), to + Slot(args[0]))
  {
  }

  /** If the `i`-th argument goes onto the stack, its words have arrived there. */
  ghost predicate Copied(m: Machine, m': Machine, args: seq<nat>, registers: seq<Register>, from: nat, to: nat, i: nat)
    requires i < |args|
  {
    var target := Place(args, registers, to)[i];
    target.OnStack? ==>
      SameWords(m, m.eax + AllStack(args, from)[i].offset, m', m.esp + target.offset, Slot(args[i]))
  }

  ghost predicate AllCopied(m: Machine, m': Machine, args: seq<nat>, registers: seq<Register>, from: nat, to: nat) {
    forall i :: 0 <= i < |args| ==> Copied(m, m', args, registers, from, to, i)
  }

  lemma CopiedAfterRegister(m: Machine, m': Machine, args: seq<nat>, registers: seq<Register>, from: nat, to: nat)
    requires args != [] && registers != [] && Slot(args[0]) == 4
    requires AllCopied(m, m', args[1..], registers[1..], from + 4, to)
    ensures AllCopied(m, m', args, registers, from, to)
  {
    forall i | 0 <= i < |args| ensures Copied(m, m', args, registers, from, to, i) {
      assert i > 0 ==> Copied(m, m', args[1..], registers[1..], from + 4, to, i - 1);
    }
  }

  /** Copying the later arguments disturbs neither the first one's copy nor the words still to be read. */
  lemma CopiedAfterStack(m: Machine, m1: Machine, m': Machine, args: seq<nat>, registers: seq<Register>,
                         from: nat, to: nat)
    requires args != [] && !(registers != [] && Slot(args[0]) == 4) && Apart(m, args, registers, from, to)
    requires OnlyWrote(m, m1, m.esp + to, m.esp + to + Slot(args[0]))
    requires SameWords(m, m.eax + from, m1, m.esp + to, Slot(args[0]))
    requires OnlyWrote(m1, m', m.esp + to + Slot(args[0]), m.esp + to + StackSize(args, registers))
    requires AllCopied(m1, m', args[1..], [], from + Slot(args[0]), to + Slot(args[0]))
    ensures OnlyWrote(m, m', m.esp + to, m.esp + to + StackSize(args, registers))
    ensures AllCopied(m, m', args, registers, from, to)
  {
    forall i | 0 <= i < |args| ensures Copied(m, m', args, registers, from, to, i) {
      if i > 0 {
        CopiedLater(m, m1, m', args, registers, from, to, i);
      }
    }
  }

  lemma CopiedLater(m: Machine, m1: Machine, m': Machine, args: seq<nat>, registers: seq<Register>,
                    from: nat, to: nat, i: nat)
    requires 0 < i < |args| && !(registers != [] && Slot(args[0]) == 4)
    requires Apart(m, args, registers, from, to)
    requires OnlyWrote(m, m1, m.esp + to, m.esp + to + Slot(args[0]))
    requires Copied(m1, m', args[1..], [], from + Slot(args[0]), to + Slot(args[0]), i - 1)
    ensures Copied(m, m', args, registers, from, to, i)
  {
    var slot, rest := Slot(args[0]), args[1..];
    assert AllStack(rest, from + slot)[i - 1].OnStack?;
    StackIsPacked(rest, [], from + slot, i - 1);
    assert AllStack(args, from)[i] == AllStack(rest, from + slot)[i - 1];
    assert Place(args, registers, to)[i] == Place(rest, [], to + slot)[i - 1];
  }

  // ----- loading registers

  function LoadsFor(args: seq<nat>, registers: seq<Register>, from: nat, to: nat): seq<Instruction> {
    Loads(AllStack(args, from), Place(args, registers, to))
  }

  lemma LoadsUnfold(args: seq<nat>, registers: seq<Register>, from: nat, to: nat)
    requires args != []
    ensures
      var slot := Slot(args[0]);
      if registers != [] && slot == 4 then
        LoadsFor(args, registers, from, to) ==
        [LoadArgument(registers[0], from)] + LoadsFor(args[1..], registers[1..], from + slot, to)
      else
        LoadsFor(args, registers, from, to) == LoadsFor(args[1..], [], from + slot, to + slot)
  {
    var slot := Slot(args[0]);
    assert AllStack(args, from)[1..] == AllStack(args[1..], from + slot);
    if registers != [] && slot == 4 {
      assert Place(args, registers, to)[1..] == Place(args[1..], registers[1..], to);
    } else {
      assert Place(args, registers, to)[1..] == Place(args[1..], [], to + slot);
    }
  }

  /** Distinct argument registers, which are not the ones the loads go through. */
  ghost predicate ArgumentRegisters(registers: seq<Register>) {
    && (forall i :: 0 <= i < |registers| ==> registers[i] == Ecx || registers[i] == Edx)
    && forall i, j :: 0 <= i < j < |registers| ==> registers[i] != registers[j]
  }

  /** If the `i`-th argument goes into a register, it has arrived there. */
  ghost predicate Loaded(m: Machine, m': Machine, args: seq<nat>, registers: seq<Register>, from: nat, to: nat, i: nat)
    requires i < |args|
  {
    var target := Place(args, registers, to)[i];
    target.InRegister? ==> Get(m', target.register) == Load(m, m.eax + AllStack(args, from)[i].offset)
  }

  ghost predicate OnlyLoaded(m: Machine, m': Machine, registers: seq<Register>) {
    && m' == m.(ecx := m'.ecx, edx := m'.edx)
    && forall r :: r !in registers ==> Get(m', r) == Get(m, r)
  }

  /** The loads change the argument registers and nothing else, and no load destroys an earlier one. */
  lemma {:induction false} LoadsRun(w: World, callee: Callee, m: Machine, args: seq<nat>, registers: seq<Register>,
                                    from: nat, to: nat) returns (m': Machine)
    requires ArgumentRegisters(registers) && Aligned(m.eax + from)
    ensures Run(w, callee, LoadsFor(args, registers, from, to), m) == Some(m')
    ensures OnlyLoaded(m, m', registers)
    ensures AllLoaded(m, m', args, registers, from, to)
    decreases |args|
  {
    if args == [] {
      return m;
    }
    LoadsUnfold(args, registers, from, to);
    var slot, rest := Slot(args[0]), args[1..];
    if registers != [] && slot == 4 {
      RestAreArgumentRegisters(registers);
      var m1 := LoadRuns(w, callee, m, registers[0], from);
      m' := LoadsRun(w, callee, m1, rest, registers[1..], from + slot, to);
      Chain(w, callee, [LoadArgument(registers[0], from)], LoadsFor(rest, registers[1..], from + slot, to), m, m1, m');
      LoadedAfterRegister(m, m1, m', args, registers, from, to);
    } else {
      m' := LoadsRun(w, callee, m, rest, [], from + slot, to + slot);
      LoadedAfterStack(m, m', args, registers, from, to);
    }
  }

  lemma RestAreArgumentRegisters(registers: seq<Register>)
    requires ArgumentRegisters(registers) && registers != []
    ensures ArgumentRegisters(registers[1..]) && (registers[0] == Ecx || registers[0] == Edx)
  {
  }

  lemma LoadRuns(w: World, callee: Callee, m: Machine, r: Register, from: nat) returns (m1: Machine)
    requires (r == Ecx || r == Edx) && Aligned(m.eax + from)
    ensures m1 == Set(m, r, Load(m, m.eax + from)) && m1.eax == m.eax
    ensures Run(w, callee, [LoadArgument(r, from)], m) == Some(m1)
  {
    m1 := Set(m, r, Load(m, m.eax + from));
    Trace(w, callee, [LoadArgument(r, from)], [m, m1]);
  }

  lemma LoadedAfterStack(m: Machine, m': Machine, args: seq<nat>, registers: seq<Register>, from: nat, to: nat)
    requires args != [] && !(registers != [] && Slot(args[0]) == 4)
    requires OnlyLoaded(m, m', [])
    requires AllLoaded(m, m', args[1..], [], from + Slot(args[0]), to + Slot(args[0]))
    ensures OnlyLoaded(m, m', registers) && AllLoaded(m, m', args, registers, from, to)
  {
    forall i | 0 <= i < |args| ensures Loaded(m, m', args, registers, from, to, i) {
      assert i > 0 ==> Loaded(m, m', args[1..], [], from + Slot(args[0]), to + Slot(args[0]), i - 1);
    }
  }

  ghost predicate AllLoaded(m: Machine, m': Machine, args: seq<nat>, registers: seq<Register>, from: nat, to: nat) {
    forall i :: 0 <= i < |args| ==> Loaded(m, m', args, registers, from, to, i)
  }

  lemma LoadedAfterRegister(m: Machine, m1: Machine, m': Machine, args: seq<nat>, registers: seq<Register>,
                            from: nat, to: nat)
    requires args != [] && registers != [] && Slot(args[0]) == 4 && ArgumentRegisters(registers)
    requires m1 == Set(m, registers[0], Load(m, m.eax + from)) && OnlyLoaded(m1, m', registers[1..])
    requires AllLoaded(m1, m', args[1..], registers[1..], from + 4, to)
    ensures OnlyLoaded(m, m', registers) && AllLoaded(m, m', args, registers, from, to)
  {
    assert registers[0] == Ecx || registers[0] == Edx;
    assert registers[0] !in registers[1..] && forall r :: r in registers[1..] ==> r in registers;
    forall i | 0 <= i < |args| ensures Loaded(m, m', args, registers, from, to, i) {
      assert i > 0 ==> Loaded(m1, m', args[1..], registers[1..], from + 4, to, i - 1);
    }
  }

  // ----- the way back

  function SaveSize(result: nat): nat {
    (if result > 0 then 4 else 0) + (if result > 4 then 4 else 0)
  }

  /** The result registers are on the stack, the rest of memory is as before. */
  ghost predicate Saved(m: Machine, m': Machine, result: nat) {
    && m' == m.(esp := m.esp - SaveSize(result), memory := m'.memory)
    && (result > 0 ==> Load(m', m.esp - 4) == m.eax)
    && (result > 4 ==> Load(m', m.esp - 8) == m.edx)
    && forall a :: !(m.esp - 8 <= a < m.esp) ==> Load(m', a) == Load(m, a)
  }

  lemma SaveRuns(w: World, callee: Callee, m: Machine, result: nat) returns (m': Machine)
    requires Aligned(m.esp)
    ensures Run(w, callee, SaveResult(result), m) == Some(m') && Saved(m, m', result)
  {
    m' := m;
    if result > 0 {
      var m1 := Store(m, m.esp - 4, m.eax).(esp := m.esp - 4);
      Trace(w, callee, [Push(Eax)], [m, m1]);
      m' := m1;
      if result > 4 {
        m' := Store(m1, m.esp - 8, m.edx).(esp := m.esp - 8);
        Trace(w, callee, [Push(Edx)], [m1, m']);
        Chain(w, callee, [Push(Eax)], [Push(Edx)], m, m1, m');
      }
    }
  }

  /** The registers that carry the result hold what was saved. */
  ghost predicate Restored(m: Machine, m': Machine, eax: int, edx: int, result: nat) {
    && m' == m.(esp := m.esp + SaveSize(result), eax := m'.eax, edx := m'.edx)
    && (result > 0 ==> m'.eax == eax) && (result > 4 ==> m'.edx == edx)
  }

  lemma RestoreRuns(w: World, callee: Callee, m: Machine, eax: int, edx: int, result: nat) returns (m': Machine)
    requires Aligned(m.esp)
    requires result > 0 ==> Load(m, m.esp + SaveSize(result) - 4) == eax
    requires result > 4 ==> Load(m, m.esp) == edx
    ensures Run(w, callee, RestoreResult(result), m) == Some(m') && Restored(m, m', eax, edx, result)
  {
    m' := m;
    if result > 4 {
      var m1 := m.(edx := edx, esp := m.esp + 4);
      m' := m1.(eax := eax, esp := m.esp + 8);
      Trace(w, callee, [Pop(Edx), Pop(Eax)], [m, m1, m']);
    } else if result > 0 {
      m' := m.(eax := eax, esp := m.esp + 4);
      Trace(w, callee, [Pop(Eax)], [m, m']);
    }
  }

  /** Finding the thread block from the host side and exchanging the segments back. */
  lemma TebHostRuns(w: World, callee: Callee, m: Machine) returns (eax: int, edx: int)
    requires m.gs == w.hostGs
    ensures Run(w, callee, [LoadTebHost] + SWAP_SEGMENTS, m) == Some(Swapped(m.(ecx := w.tebAddress), eax, edx))
  {
    var m1 := m.(ecx := w.tebAddress);
    Trace(w, callee, [LoadTebHost], [m, m1]);
    eax, edx := SwapRuns(w, callee, m1);
    Chain(w, callee, [LoadTebHost], SWAP_SEGMENTS, m, m1, Swapped(m1, eax, edx));
  }

  lemma SwitchBackRuns(w: World, callee: Callee, m: Machine)
    requires m.ecx == w.tebAddress
    ensures Run(w, callee, SWITCH_BACK, m) ==
            Some(m.(ebp := m.teb.stackPointer, esp := m.ebp, teb := m.teb.(stackPointer := m.ebp)))
  {
    var m1 := m.(esp := m.ebp);
    var m2 := m1.(ebp := m.teb.stackPointer);
    Trace(w, callee, SWITCH_BACK, [m, m1, m2, m2.(teb := m.teb.(stackPointer := m.ebp))]);
  }

  lemma LeaveRuns(w: World, callee: Callee, m: Machine, pop: nat)
    requires Aligned(m.ebp)
    ensures Run(w, callee, [Leave, Ret(pop)], m) ==
            Some(m.(ebp := Load(m, m.ebp), eip := Load(m, m.ebp + 4), esp := m.ebp + 8 + pop))
  {
    var m1 := m.(esp := m.ebp + 4, ebp := Load(m, m.ebp));
    Trace(w, callee, [Leave, Ret(pop)], [m, m1, m1.(eip := Load(m, m.ebp + 4), esp := m.ebp + 8 + pop)]);
  }

  /** Back on the guest stack: both words above the saved stack pointer are consumed. */
  function Returned(m: Machine, pop: nat): Machine {
    var sp := m.teb.stackPointer;
    m.(ebp := Load(m, sp), eip := Load(m, sp + 4), esp := sp + 8 + pop, teb := m.teb.(stackPointer := m.ebp))
  }

  lemma ReturnRuns(w: World, callee: Callee, m: Machine, pop: nat)
    requires m.ecx == w.tebAddress && Aligned(m.teb.stackPointer)
    ensures Run(w, callee, SWITCH_BACK + [Leave, Ret(pop)], m) == Some(Returned(m, pop))
  {
    SwitchBackRuns(w, callee, m);
    var m1 := m.(ebp := m.teb.stackPointer, esp := m.ebp, teb := m.teb.(stackPointer := m.ebp));
    LeaveRuns(w, callee, m1, pop);
    Chain(w, callee, SWITCH_BACK, [Leave, Ret(pop)], m, m1, Returned(m, pop));
  }

  /** The result survives the exchange of the segments. */
  ghost predicate Carried(c: Machine, m: Machine, result: nat) {
    && m == Swapped(c, m.eax, m.edx).(ecx := m.ecx, memory := m.memory)
    && (result > 0 ==> m.eax == c.eax) && (result > 4 ==> m.edx == c.edx)
    && forall a :: !(c.esp - 8 <= a < c.esp) ==> Load(m, a) == Load(c, a)
  }

  lemma CarryRuns(w: World, callee: Callee, c: Machine, result: nat) returns (m: Machine)
    requires c.gs == w.hostGs && Aligned(c.esp)
    ensures Run(w, callee, SaveResult(result) + ([LoadTebHost] + SWAP_SEGMENTS) + RestoreResult(result), c) == Some(m)
    ensures Carried(c, m, result) && m.ecx == w.tebAddress
  {
    var m1 := SaveRuns(w, callee, c, result);
    var eax, edx := TebHostRuns(w, callee, m1);
    var m2 := Swapped(m1.(ecx := w.tebAddress), eax, edx);
    var save, restore := SaveResult(result), RestoreResult(result);
    Chain(w, callee, save, [LoadTebHost] + SWAP_SEGMENTS, c, m1, m2);
    StillSaved(c, m1, m2, result);
    m := RestoreRuns(w, callee, m2, c.eax, c.edx, result);
    Chain(w, callee, save + ([LoadTebHost] + SWAP_SEGMENTS), restore, c, m2, m);
    CarriedOver(c, m1, m2, m, result);
  }

  lemma StillSaved(c: Machine, m1: Machine, m2: Machine, result: nat)
    requires Saved(c, m1, result) && m2.memory == m1.memory && m2.esp == m1.esp && Aligned(c.esp)
    ensures Aligned(m2.esp)
    ensures result > 0 ==> Load(m2, m2.esp + SaveSize(result) - 4) == c.eax
    ensures result > 4 ==> Load(m2, m2.esp) == c.edx
  {
  }

  lemma CarriedOver(c: Machine, m1: Machine, m2: Machine, m: Machine, result: nat)
    requires Saved(c, m1, result) && m2 == Swapped(m1.(ecx := m2.ecx), m2.eax, m2.edx)
    requires Restored(m2, m, c.eax, c.edx, result)
    ensures Carried(c, m, result) && m.ecx == m2.ecx
  {
  }

  /** What the way back does, whatever the host function left in the other registers. */
  ghost predicate BackFrom(c: Machine, e: Machine, result: nat, pop: nat) {
    var sp := c.teb.stackPointer;
    && e.eip == Load(c, sp + 4) && e.ebp == Load(c, sp) && e.esp == sp + 8 + pop
    && e.fs == c.teb.fsSelector && e.gs == c.teb.gsSelector && e.teb == Teb(c.fs, c.gs, c.ebp)
    && (result > 0 ==> e.eax == c.eax) && (result > 4 ==> e.edx == c.edx)
    && forall a :: !(c.esp - 8 <= a < c.esp) ==> Load(e, a) == Load(c, a)
  }

  lemma EpilogueRuns(w: World, callee: Callee, c: Machine, result: nat, pop: nat) returns (e: Machine)
    requires c.gs == w.hostGs && Aligned(c.esp) && Aligned(c.teb.stackPointer)
    requires c.teb.stackPointer + 8 <= c.esp - 8 || c.esp <= c.teb.stackPointer
    ensures Run(w, callee, Epilogue(result, pop), c) == Some(e) && BackFrom(c, e, result, pop)
  {
    var m := CarryRuns(w, callee, c, result);
    ReturnRuns(w, callee, m, pop);
    e := Returned(m, pop);
    Chain(w, callee, SaveResult(result) + ([LoadTebHost] + SWAP_SEGMENTS) + RestoreResult(result),
          SWITCH_BACK + [Leave, Ret(pop)], c, m, e);
  }

  // ----- the whole thunk

  /**
   A guest call arriving at a thunk: fs reaches the thread block, the thread block holds the
   host's selectors and stack pointer, the guest stack holds the return address and the
   arguments, and the part of the host stack that will be used is another piece of memory.
   */
  ghost predicate Arriving(w: World, f: Signature, m: Machine) {
    && m.fs == w.guestFs && m.teb.gsSelector == w.hostGs
    && Aligned(m.esp) && Aligned(m.teb.stackPointer)
    && (|| m.esp + 4 + SourceSize(f) <= Down16(m.teb.stackPointer - TargetSize(f)) - 8
        || m.teb.stackPointer <= m.esp - 4)
  }

  /** The `i`-th argument is where the convention of the host function wants it. */
  ghost predicate Delivered(f: Signature, m: Machine, c: Machine, i: nat)
    requires i < |f.args|
  {
    SourceOf(f)[i].OnStack? &&
    var from := m.esp + SourceOf(f)[i].offset;
    match TargetOf(f)[i]
    case InRegister(r) => Get(c, r) == Load(m, from)
    case OnStack(offset) => SameWords(m, from, c, c.esp + offset, Slot(f.args[i]))
  }

  /** On the host stack with room for the arguments; of guest memory only the saved frame pointer is new. */
  ghost predicate Framed(f: Signature, m: Machine, c: Machine) {
    && c.esp == Down16(m.teb.stackPointer - TargetSize(f)) && c.ebp == m.teb.stackPointer
    && c.fs == m.teb.fsSelector && c.gs == m.teb.gsSelector && c.teb == Teb(m.fs, m.gs, m.esp - 4)
    && Load(c, m.esp - 4) == m.ebp
    && forall a :: a != m.esp - 4 && !(c.esp <= a < c.esp + TargetSize(f)) ==> Load(c, a) == Load(m, a)
  }

  /** The machine at the call of the host function. */
  ghost predicate AtCall(f: Signature, m: Machine, c: Machine) {
    && c.esp % 16 == 0 && c.esp + TargetSize(f) <= c.ebp && Framed(f, m, c)
    && forall i :: 0 <= i < |f.args| ==> Delivered(f, m, c, i)
  }

  /**
   Every argument of every signature reaches the register or the stack slot of the host
   function's convention, nothing of the guest is overwritten, and the stack is aligned.
   */
  lemma ArgumentsDelivered(w: World, callee: Callee, f: Signature, m: Machine) returns (c: Machine)
    requires Emittable(f) && Arriving(w, f, m)
    ensures Run(w, callee, Entry(f), m) == Some(c) && AtCall(f, m, c) && BlockDelivered(f, m, c)
  {
    var n := TargetSize(f);
    var eax, edx := PrologueRuns(w, callee, m, f.args != [], n);
    var m1 := OnHostStack(w, m, n, eax, edx);
    if f.args == [] {
      NothingToDeliver(w, f, m, m1);
      c := m1;
    } else {
      var moves: seq<Instruction>;
      c, moves := ArgumentsMoved(w, callee, f, m, m1);
      Chain(w, callee, Prologue(true, n), moves, m, m1, c);
    }
    BlockArrives(f, m, c);
  }

  lemma NothingToDeliver(w: World, f: Signature, m: Machine, m1: Machine)
    requires Emittable(f) && Arriving(w, f, m) && f.args == []
    requires m1 == OnHostStack(w, m, TargetSize(f), m1.eax, m1.edx)
    ensures AtCall(f, m, m1) && Entry(f) == Prologue(false, TargetSize(f))
  {
    RoundedDown(m.teb.stackPointer - TargetSize(f));
    assert forall a :: a != m.esp - 4 ==> Load(m1, a) == Load(m, a);
  }

  /** From the switch of stacks to the call. */
  lemma ArgumentsMoved(w: World, callee: Callee, f: Signature, m: Machine, m1: Machine)
    returns (c: Machine, moves: seq<Instruction>)
    requires Emittable(f) && Arriving(w, f, m) && f.args != []
    requires m1 == OnHostStack(w, m, TargetSize(f), m.esp, m1.edx)
    ensures Run(w, callee, moves, m1) == Some(c) && AtCall(f, m, c)
    ensures Entry(f) == Prologue(true, TargetSize(f)) + moves
  {
    var registers := RegistersOf(f.target);
    SourceIsAllStack(f);
    ApartOnArrival(w, f, m, m1);
    var copies, loads := CopiesFor(f.args, registers, 4, 0), LoadsFor(f.args, registers, 4, 0);
    var m2 := CopiesRun(w, callee, m1, f.args, registers, 4, 0);
    c := LoadsRun(w, callee, m2, f.args, registers, 4, 0);
    Chain(w, callee, copies, loads, m1, m2, c);
    moves := copies + loads;
    EntryParts(f);
    CallReached(w, f, m, m1, m2, c);
  }

  lemma EntryParts(f: Signature)
    requires Emittable(f) && f.args != []
    ensures
      var registers := RegistersOf(f.target);
      Entry(f) ==
      Prologue(true, TargetSize(f)) + (CopiesFor(f.args, registers, 4, 0) + LoadsFor(f.args, registers, 4, 0))
  {
    SourceIsAllStack(f);
    var prologue, copies := Prologue(true, TargetSize(f)), CopiesFor(f.args, RegistersOf(f.target), 4, 0);
    var loads := LoadsFor(f.args, RegistersOf(f.target), 4, 0);
    assert Entry(f) == prologue + copies + loads;
  }

  lemma CallReached(w: World, f: Signature, m: Machine, m1: Machine, m2: Machine, c: Machine)
    requires Emittable(f) && Arriving(w, f, m) && Apart(m1, f.args, RegistersOf(f.target), 4, 0)
    requires m1 == OnHostStack(w, m, TargetSize(f), m.esp, m1.edx)
    requires OnlyWrote(m1, m2, m1.esp, m1.esp + TargetSize(f)) && OnlyLoaded(m2, c, RegistersOf(f.target))
    requires AllCopied(m1, m2, f.args, RegistersOf(f.target), 4, 0) && AllLoaded(m2, c, f.args, RegistersOf(f.target), 4, 0)
    ensures AtCall(f, m, c)
  {
    RoundedDown(m.teb.stackPointer - TargetSize(f));
    FrameKept(w, f, m, m1, m2, c);
    forall i | 0 <= i < |f.args| ensures Delivered(f, m, c, i) {
      DeliveredBy(f, m, m1, m2, c, i);
    }
  }

  lemma DeliveredBy(f: Signature, m: Machine, m1: Machine, m2: Machine, c: Machine, i: nat)
    requires Emittable(f) && i < |f.args| && Apart(m1, f.args, RegistersOf(f.target), 4, 0)
    requires m1.eax == m.esp && m1.memory == m.memory[m.esp - 4 := m.ebp]
    requires OnlyWrote(m1, m2, m1.esp, m1.esp + TargetSize(f)) && OnlyLoaded(m2, c, RegistersOf(f.target))
    requires Copied(m1, m2, f.args, RegistersOf(f.target), 4, 0, i)
    requires Loaded(m2, c, f.args, RegistersOf(f.target), 4, 0, i)
    ensures Delivered(f, m, c, i)
  {
    SourceIsAllStack(f);
    assert AllStack(f.args, 4)[i].OnStack?;
    StackIsPacked(f.args, [], 4, i);
    var from := m.esp + SourceOf(f)[i].offset;
    assert Load(m1, from) == Load(m, from) && Load(m1, from + 4) == Load(m, from + 4);
    assert Load(m2, from) == Load(m1, from);
  }

  lemma FrameKept(w: World, f: Signature, m: Machine, m1: Machine, m2: Machine, c: Machine)
    requires Arriving(w, f, m) && m1 == OnHostStack(w, m, TargetSize(f), m1.eax, m1.edx)
    requires OnlyWrote(m1, m2, m1.esp, m1.esp + TargetSize(f)) && OnlyLoaded(m2, c, RegistersOf(f.target))
    ensures Framed(f, m, c)
  {
    assert forall a :: a != m.esp - 4 ==> Load(m1, a) == Load(m, a);
    assert Load(m2, m.esp - 4) == Load(m1, m.esp - 4);
  }

  lemma ApartOnArrival(w: World, f: Signature, m: Machine, m1: Machine)
    requires Emittable(f) && Arriving(w, f, m)
    requires m1.eax == m.esp && m1.esp == Down16(m.teb.stackPointer - TargetSize(f))
    ensures Apart(m1, f.args, RegistersOf(f.target), 4, 0)
  {
    SourceIsAllStack(f);
    RoundedDown(m.teb.stackPointer - TargetSize(f));
    ApartBelow(m.esp, SourceSize(f), m1.esp, m.teb.stackPointer, TargetSize(f));
  }

  lemma RoundedDown(address: int)
    ensures Aligned(Down16(address)) && Down16(address) % 16 == 0 && Down16(address) <= address
  {
    FourDivides(4 * (address / 16));
  }

  lemma FourDivides(k: int)
    ensures Aligned(4 * k)
  {
  }

  lemma ApartBelow(guest: int, sourceSize: nat, low: int, host: int, targetSize: nat)
    requires Aligned(guest) && low <= host - targetSize
    requires guest + 4 + sourceSize <= low - 8 || host <= guest - 4
    ensures Aligned(guest + 4) && (guest + 4 + sourceSize <= low || low + targetSize <= guest + 4)
  {
  }

  // ----- delivery in terms of the machine alone

  /** Bytes of argument block: one or two double words per argument. */
  function BlockSize(args: seq<nat>): nat {
    if args == [] then 0 else (if args[0] <= 4 then 4 else 8) + BlockSize(args[1..])
  }

  /** How many leading double words of the block go into registers: at most two, and only arguments of at most 4 bytes. */
  function InRegisters(args: seq<nat>, target: Convention): nat {
    if !target.Fastcall? || args == [] || args[0] > 4 then 0
    else if |args| == 1 || args[1] > 4 then 1
    else 2
  }

  /**
   The guest's argument block arrives double word by double word: for a fastcall function the first
   in ecx and the second in edx, as far as the arguments fit there, and the rest on the stack in
   its order; for any other function all of it on the stack.
   */
  ghost predicate BlockDelivered(f: Signature, m: Machine, c: Machine) {
    var n := InRegisters(f.args, f.target);
    && (n >= 1 ==> c.ecx == Load(m, m.esp + 4))
    && (n >= 2 ==> c.edx == Load(m, m.esp + 8))
    && forall k: nat :: 4 * (n + k) < BlockSize(f.args) ==> Word(c, c.esp, k) == Word(m, m.esp + 4, n + k)
  }

  /** The `k`-th double word from an address on. */
  function Word(m: Machine, address: int, k: nat): int {
    Load(m, address + 4 * k)
  }

  lemma {:induction false} BlockIsStack(args: seq<nat>)
    ensures BlockSize(args) == StackSize(args, [])
  {
    if args != [] {
      BlockIsStack(args[1..]);
    }
  }

  /** Each double word of arguments that are all on the stack lies at its own place in the block. */
  lemma {:induction false} WordOfBlock(args: seq<nat>, from: nat, to: nat, k: nat) returns (i: nat)
    requires 4 * k < StackSize(args, [])
    ensures i < |args|
    ensures
      var p, q := AllStack(args, from)[i].offset, AllStack(args, to)[i].offset;
      || (p == from + 4 * k && q == to + 4 * k)
      || (Slot(args[i]) == 8 && p + 4 == from + 4 * k && q + 4 == to + 4 * k)
    decreases |args|
  {
    var slot, rest := Slot(args[0]), args[1..];
    if 4 * k < slot {
      i := 0;
    } else {
      var j := WordOfBlock(rest, from + slot, to + slot, k - slot / 4);
      i := j + 1;
      assert AllStack(args, from)[i] == AllStack(rest, from + slot)[j];
      assert AllStack(args, to)[i] == AllStack(rest, to + slot)[j];
    }
  }

  /** A fastcall layout is `n` registers followed by an ordinary layout of the remaining arguments. */
  ghost predicate Splits(args: seq<nat>, n: nat) {
    && n <= |args| && n <= 2
    && Place(args, [Ecx, Edx], 0) == [InRegister(Ecx), InRegister(Edx)][..n] + Place(args[n..], [], 0)
    && Place(args, [], 4) == [OnStack(4), OnStack(8)][..n] + Place(args[n..], [], 4 + 4 * n)
    && BlockSize(args) == 4 * n + BlockSize(args[n..])
  }

  lemma SplitsAtOne(args: seq<nat>)
    requires args != [] && args[0] <= 4 && (|args| == 1 || args[1] > 4)
    ensures Splits(args, 1)
  {
    var rest := args[1..];
    assert [Ecx, Edx][1..] == [Edx];
    assert [InRegister(Ecx), InRegister(Edx)][..1] == [InRegister(Ecx)] && [OnStack(4), OnStack(8)][..1] == [OnStack(4)];
    assert Place(args, [Ecx, Edx], 0) == [InRegister(Ecx)] + Place(rest, [Edx], 0);
    assert Place(rest, [Edx], 0) == Place(rest, [], 0);
    assert Place(args, [], 4) == [OnStack(4)] + Place(rest, [], 8);
  }

  lemma SplitsAtTwo(args: seq<nat>)
    requires |args| >= 2 && args[0] <= 4 && args[1] <= 4
    ensures Splits(args, 2)
  {
    var rest, more := args[1..], args[2..];
    assert rest[1..] == more && [Ecx, Edx][1..] == [Edx] && [Edx][1..] == [];
    assert [InRegister(Ecx), InRegister(Edx)][..2] == [InRegister(Ecx)] + [InRegister(Edx)];
    assert [OnStack(4), OnStack(8)][..2] == [OnStack(4)] + [OnStack(8)];
    assert Place(args, [Ecx, Edx], 0) == [InRegister(Ecx)] + Place(rest, [Edx], 0);
    assert Place(rest, [Edx], 0) == [InRegister(Edx)] + Place(more, [], 0);
    assert Place(args, [], 4) == [OnStack(4)] + Place(rest, [], 8);
    assert Place(rest, [], 8) == [OnStack(8)] + Place(more, [], 12);
    assert BlockSize(rest) == 4 + BlockSize(more);
  }

  lemma FastcallSplits(args: seq<nat>)
    ensures Splits(args, InRegisters(args, Fastcall))
  {
    var n := InRegisters(args, Fastcall);
    if n == 2 {
      SplitsAtTwo(args);
    } else if n == 1 {
      SplitsAtOne(args);
    } else {
      assert args[0..] == args;
      assert [InRegister(Ecx), InRegister(Edx)][..0] == [] && [OnStack(4), OnStack(8)][..0] == [];
    }
  }

  /** The machine at the call has the argument block where the host function looks for it. */
  lemma BlockArrives(f: Signature, m: Machine, c: Machine)
    requires Emittable(f) && AtCall(f, m, c)
    ensures BlockDelivered(f, m, c)
  {
    if f.target.Fastcall? {
      RegistersArrive(f, m, c);
    }
    var n := InRegisters(f.args, f.target);
    forall k: nat | 4 * (n + k) < BlockSize(f.args)
      ensures Word(c, c.esp, k) == Word(m, m.esp + 4, n + k)
    {
      WordArrives(f, m, c, k);
    }
  }

  lemma RegistersArrive(f: Signature, m: Machine, c: Machine)
    requires Emittable(f) && AtCall(f, m, c) && f.target.Fastcall?
    ensures
      var n := InRegisters(f.args, f.target);
      && (n >= 1 ==> c.ecx == Load(m, m.esp + 4))
      && (n >= 2 ==> c.edx == Load(m, m.esp + 8))
  {
    SourceIsAllStack(f);
    FastcallSplits(f.args);
    var n := InRegisters(f.args, f.target);
    if n >= 1 {
      assert Delivered(f, m, c, 0);
    }
    if n >= 2 {
      assert Delivered(f, m, c, 1);
    }
  }

  lemma WordArrives(f: Signature, m: Machine, c: Machine, k: nat)
    requires Emittable(f) && AtCall(f, m, c) && 4 * (InRegisters(f.args, f.target) + k) < BlockSize(f.args)
    ensures Word(c, c.esp, k) == Word(m, m.esp + 4, InRegisters(f.args, f.target) + k)
  {
    var n := InRegisters(f.args, f.target);
    BlockSplits(f);
    var rest := f.args[n..];
    BlockIsStack(rest);
    var j := WordOfBlock(rest, 4 + 4 * n, 0, k);
    RestIsPlaced(f, j);
    var i := n + j;
    assert Delivered(f, m, c, i);
    assert SourceOf(f)[i] == AllStack(rest, 4 + 4 * n)[j] && TargetOf(f)[i] == AllStack(rest, 0)[j];
    assert rest[j] == f.args[i];
  }

  /** Behind the registers, both layouts are ordinary ones of the remaining arguments. */
  lemma RestIsPlaced(f: Signature, j: nat)
    requires Emittable(f) && j < |f.args| - InRegisters(f.args, f.target)
    ensures
      var n := InRegisters(f.args, f.target);
      var rest := f.args[n..];
      SourceOf(f)[n + j] == Place(rest, [], 4 + 4 * n)[j] && TargetOf(f)[n + j] == Place(rest, [], 0)[j]
  {
    SourceIsAllStack(f);
    if f.target.Fastcall? {
      FastcallSplits(f.args);
      SplitAt(f.args, InRegisters(f.args, Fastcall), j);
    } else {
      assert f.args[0..] == f.args;
    }
  }

  lemma SplitAt(args: seq<nat>, n: nat, j: nat)
    requires Splits(args, n) && n + j < |args|
    ensures Place(args, [Ecx, Edx], 0)[n + j] == Place(args[n..], [], 0)[j]
    ensures Place(args, [], 4)[n + j] == Place(args[n..], [], 4 + 4 * n)[j]
  {
    Behind(Place(args, [Ecx, Edx], 0), [InRegister(Ecx), InRegister(Edx)][..n], Place(args[n..], [], 0), j);
    Behind(Place(args, [], 4), [OnStack(4), OnStack(8)][..n], Place(args[n..], [], 4 + 4 * n), j);
  }

  lemma Behind(whole: seq<Placement>, head: seq<Placement>, tail: seq<Placement>, j: nat)
    requires whole == head + tail && j < |tail|
    ensures whole[|head| + j] == tail[j]
  {
  }

  lemma BlockSplits(f: Signature)
    ensures
      var n := InRegisters(f.args, f.target);
      n <= |f.args| && BlockSize(f.args) == 4 * n + BlockSize(f.args[n..])
  {
    if f.target.Fastcall? {
      FastcallSplits(f.args);
    } else {
      assert f.args[0..] == f.args;
    }
  }

  /**
   What the host function must keep: its caller's frame pointer and segments, the thread block's
   saved values, and the two guest words that lead back. It may pop its arguments or leave them.
   */
  ghost predicate Behaves(c: Machine, d: Machine) {
    && d.ebp == c.ebp && d.fs == c.fs && d.gs == c.gs && d.teb == c.teb
    && Load(d, c.teb.stackPointer) == Load(c, c.teb.stackPointer)
    && Load(d, c.teb.stackPointer + 4) == Load(c, c.teb.stackPointer + 4)
    && c.esp <= d.esp <= c.ebp && Aligned(d.esp)
  }

  /** The guest finds itself behind its call, with the result and without the arguments it is not to see again. */
  ghost predicate BackAtGuest(f: Signature, m: Machine, d: Machine, e: Machine) {
    && e.eip == Load(m, m.esp) && e.ebp == m.ebp
    && e.esp == m.esp + 4 + (if f.source.Stdcall? then BlockSize(f.args) else 0)
    && (e.esp == m.esp + 4 + ConventionPops(f) <==> !FastcallWithArguments(f))
    && e.fs == m.fs && e.gs == m.gs && e.teb == m.teb
    && (f.result > 0 ==> e.eax == d.eax) && (f.result > 4 ==> e.edx == d.edx)
    && forall a :: !(d.esp - 8 <= a < d.esp) ==> Load(e, a) == Load(d, a)
  }

  /** The whole thunk, for every signature and every host function that keeps what it must. */
  lemma ThunkReturns(w: World, callee: Callee, f: Signature, m: Machine, c: Machine) returns (e: Machine)
    requires Emittable(f) && Arriving(w, f, m)
    requires Run(w, callee, Entry(f), m) == Some(c) && Behaves(c, callee(c))
    ensures Run(w, callee, Thunk(f), m) == Some(e) && BackAtGuest(f, m, callee(c), e)
  {
    var c' := ArgumentsDelivered(w, callee, f, m);
    var d := callee(c);
    Trace(w, callee, [Call], [c, d]);
    Chain(w, callee, Entry(f), [Call], m, c, d);
    ApartOnReturn(m.esp, SourceSize(f), c.esp, m.teb.stackPointer, d.esp);
    e := EpilogueRuns(w, callee, d, f.result, Popped(f));
    Chain(w, callee, Entry(f) + [Call], Epilogue(f.result, Popped(f)), m, d, e);
    PopsWhatTheConventionAsks(f);
    SourceIsAllStack(f);
    BlockIsStack(f.args);
    BackIs(w, f, m, c, d, e);
  }

  lemma ApartOnReturn(guest: int, size: nat, low: int, host: int, esp: int)
    requires Aligned(guest) && (guest + 4 + size <= low - 8 || host <= guest - 4) && low <= esp <= host
    ensures Aligned(guest - 4) && (guest - 4 + 8 <= esp - 8 || esp <= guest - 4)
  {
  }

  lemma BackIs(w: World, f: Signature, m: Machine, c: Machine, d: Machine, e: Machine)
    requires Arriving(w, f, m) && AtCall(f, m, c) && Behaves(c, d)
    requires Popped(f) == ConventionPops(f) <==> !FastcallWithArguments(f)
    requires SourceSize(f) == BlockSize(f.args)
    requires BackFrom(d, e, f.result, Popped(f))
    ensures BackAtGuest(f, m, d, e)
  {
    assert Load(c, m.esp) == Load(m, m.esp);
  }
}
