/** The body of a forwarding stub: load the receiver and every argument, call the companion
    method statically, return its result. Opcodes and slot widths follow the JVM, as the ASM
    library's `Type.getOpcode` and `Type.getSize` compute them. */
module StubCode {
  import opened ClassModel

  const ILOAD: int := 21
  const ALOAD: int := 25
  const IRETURN: int := 172
  const INVOKESTATIC: int := 184

  /** How far a type's variant of a load or return opcode lies from the `int` variant:
      ILOAD, LLOAD, FLOAD, DLOAD, ALOAD are 21..25 and IRETURN .. ARETURN, RETURN are 172..177. */
  function OpcodeOffset(t: JType): nat {
    match t
    case Boolean | Char | Byte | Short | Int => 0
    case Long => 1
    case Float => 2
    case Double => 3
    case Reference(_) => 4
    case Void => 5
  }

  /** `Type.getOpcode(base)` for base ILOAD or IRETURN. */
  function TypeOpcode(t: JType, base: int): int {
    base + OpcodeOffset(t)
  }

  /** `Type.getSize`: the number of local-variable slots a value of type `t` occupies. */
  function SlotSize(t: JType): nat {
    match t
    case Long | Double => 2
    case Void => 0
    case _ => 1
  }

  /** The number of slots taken by a run of arguments. */
  function SlotWidth(ts: seq<JType>): nat {
    if ts == [] then 0 else SlotWidth(ts[..|ts| - 1]) + SlotSize(ts[|ts| - 1])
  }

  /** One load per argument, argument `i` read from the slot just past the receiver and the
      arguments before it. */
  function ArgLoads(args: seq<JType>): seq<Insn> {
    ArgLoadsAt(args, 1)
  }

  function ArgLoadsAt(args: seq<JType>, base: nat): seq<Insn> {
    seq(|args|, i requires 0 <= i < |args| => VarInsn(TypeOpcode(args[i], ILOAD), base + SlotWidth(args[..i])))
  }

  /** The complete stub body for a method with descriptor `desc` that forwards to the static
      method `name` of class `owner` with descriptor `companionDesc`. */
  function ForwardingBody(owner: string, name: string, desc: Desc, companionDesc: Desc): seq<Insn> {
    [VarInsn(ALOAD, 0)]
    + ArgLoads(desc.args)
    + [MethodInsn(INVOKESTATIC, owner, name, companionDesc, false),
       SimpleInsn(TypeOpcode(desc.ret, IRETURN))]
  }

  /** Emits the stub body with a running slot counter, as the stubber does. */
  method EmitForwardingBody(owner: string, name: string, desc: Desc, companionDesc: Desc)
    returns (code: seq<Insn>)
    ensures code == ForwardingBody(owner, name, desc, companionDesc)
  {
    var slot: nat := 0;
    code := [VarInsn(ALOAD, slot)];  // load the receiver
    slot := slot + 1;
    var args := desc.args;
    for i := 0 to |args|
      invariant slot == 1 + SlotWidth(args[..i])
      invariant code == [VarInsn(ALOAD, 0)] + ArgLoads(args[..i])
    {
      assert args[..i + 1][..i] == args[..i];
      assert forall k | 0 <= k < i :: args[..i + 1][..k] == args[..i][..k];
      code := code + [VarInsn(TypeOpcode(args[i], ILOAD), slot)];
      slot := slot + SlotSize(args[i]);
    }
    assert args[..|args|] == args;
    code := code + [MethodInsn(INVOKESTATIC, owner, name, companionDesc, false),
                    SimpleInsn(TypeOpcode(desc.ret, IRETURN))];
  }

  /** The slot counter read the other way round: the first argument at `slot`, each next one
      past the slots of the one before. */
  function LoadsFrom(args: seq<JType>, slot: nat): seq<Insn>
    decreases |args|
  {
    if args == [] then []
    else [VarInsn(TypeOpcode(args[0], ILOAD), slot)] + LoadsFrom(args[1..], slot + SlotSize(args[0]))
  }

  lemma {:induction false} SlotWidthCons(a: JType, t: seq<JType>)
    ensures SlotWidth([a] + t) == SlotSize(a) + SlotWidth(t)
    decreases |t|
  {
    if t != [] {
      var front := t[..|t| - 1];
      assert ([a] + t)[..|[a] + t| - 1] == [a] + front;
      SlotWidthCons(a, front);
    } else {
      assert ([a] + t)[..0] == [];
    }
  }

  /** The closed form of the argument loads agrees with the running slot counter. */
  lemma {:induction false} ArgLoadsAtIsLoadsFrom(args: seq<JType>, base: nat)
    ensures ArgLoadsAt(args, base) == LoadsFrom(args, base)
    decreases |args|
  {
    if args != [] {
      var rest := args[1..];
      var next := base + SlotSize(args[0]);
      ArgLoadsAtIsLoadsFrom(rest, next);
      var l := ArgLoadsAt(args, base);
      var r := [VarInsn(TypeOpcode(args[0], ILOAD), base)] + ArgLoadsAt(rest, next);
      assert args[..0] == [];
      forall i | 1 <= i < |args|
        ensures l[i] == r[i]
      {
        assert args[..i] == [args[0]] + rest[..i - 1];
        SlotWidthCons(args[0], rest[..i - 1]);
      }
      assert l == r;
    }
  }

  /** The receiver sits in slot 0 and the arguments follow it, each advancing the slot by its
      width; the next free slot after the arguments is `1 + SlotWidth(args)`. */
  lemma ForwardingBodyLoads(owner: string, name: string, desc: Desc, companionDesc: Desc)
    ensures var code := ForwardingBody(owner, name, desc, companionDesc);
            |code| == |desc.args| + 3
            && code[0] == VarInsn(ALOAD, 0)
            && code[1..|desc.args| + 1] == LoadsFrom(desc.args, 1)
            && code[|desc.args| + 1] == MethodInsn(INVOKESTATIC, owner, name, companionDesc, false)
            && code[|desc.args| + 2] == SimpleInsn(TypeOpcode(desc.ret, IRETURN))
  {
    ArgLoadsAtIsLoadsFrom(desc.args, 1);
    var code := ForwardingBody(owner, name, desc, companionDesc);
    assert code[1..|desc.args| + 1] == ArgLoads(desc.args);
  }

  /** A method taking (int, long, Object): the receiver from slot 0, then the arguments from
      slots 1, 2 and 4, four argument slots in all. */
  lemma IntLongObjectStub(owner: string, name: string, ret: JType, companionDesc: Desc)
    ensures var desc := Desc([Int, Long, Reference("Ljava/lang/Object;")], ret);
            var code := ForwardingBody(owner, name, desc, companionDesc);
            && SlotWidth(desc.args) == 4
            && code[..4] == [VarInsn(ALOAD, 0), VarInsn(ILOAD, 1), VarInsn(ILOAD + 1, 2), VarInsn(ALOAD, 4)]
  {
    var args := [Int, Long, Reference("Ljava/lang/Object;")];
    assert args[..1] == [Int];
    assert args[..2] == [Int, Long];
    assert args[..3][..2] == [Int, Long];
    assert args[..2][..1] == [Int];
    assert [Int][..0] == [];
  }
}
