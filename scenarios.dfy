/** What the fixer's functional description yields for small concrete class hierarchies. */
module Scenarios {
  import opened ClassModel
  import opened StubCode
  import opened FixerSpec

  const ACC_PUBLIC: Access := 0x0001
  const ACC_SUPER: Access := 0x0020
  const VERSION: int := 52
  const RETURN: int := IRETURN + 5

  const VoidM := Desc([], Void)
  const DefaultM := MethodDecl(ACC_PUBLIC, "m", VoidM, None, [])

  /** The root class, on the bootclasspath as on a real JVM. */
  const ObjectFile := ClassFile(ClassHeader(VERSION, ACC_PUBLIC | ACC_SUPER, ObjectName, None, None, []), [])

  function Interface(name: string, supers: seq<string>, ms: seq<MethodDecl>): ClassFile {
    ClassFile(ClassHeader(VERSION, ACC_PUBLIC | ACC_INTERFACE | ACC_ABSTRACT, name, None, Some(ObjectName), supers), ms)
  }

  /** A public class extending `superName` and implementing `ifaces`. */
  function Class(name: string, superName: string, ifaces: seq<string>): ClassHeader {
    ClassHeader(VERSION, ACC_PUBLIC | ACC_SUPER, name, None, Some(superName), ifaces)
  }

  /** Companion classes are named with a `$$CC` suffix, and a companion method takes the
      receiver as its first argument. */
  function Companions(classpath: map<string, ClassFile>, bootclasspath: map<string, ClassFile>): Env {
    Env(classpath, bootclasspath, "$$CC", (iface: string, d: Desc) => Desc([Reference("L" + iface + ";")] + d.args, d.ret))
  }

  /** The stub for `m()V` of interface `iface`. */
  function StubM(iface: string): Event {
    Synthesized(StubMethod(
      DefaultM,
      [VarInsn(ALOAD, 0),
       MethodInsn(INVOKESTATIC, iface + "$$CC", "m", Desc([Reference("L" + iface + ";")], Void), false),
       SimpleInsn(RETURN)]))
  }

  /** With the companion convention above, the stub of `m()V` loads the receiver, calls
      `m` of the companion with the receiver as its one argument, and returns void. */
  lemma StubOfM(cp: map<string, ClassFile>, boot: map<string, ClassFile>, iface: string)
    ensures Synthesized(StubFor(Companions(cp, boot), iface, DefaultM)) == StubM(iface)
  {
    var env := Companions(cp, boot);
    var cd := Desc([Reference("L" + iface + ";")], Void);
    assert [Reference("L" + iface + ";")] + VoidM.args == [Reference("L" + iface + ";")];
    assert env.companionDescriptor(iface, VoidM) == cd;
    assert ArgLoads([]) == [];
    assert ForwardingBody(iface + "$$CC", "m", VoidM, cd)
        == [VarInsn(ALOAD, 0)] + [] + [MethodInsn(INVOKESTATIC, iface + "$$CC", "m", cd, false), SimpleInsn(RETURN)];
  }

  /** A class directly under the root inherits nothing. */
  lemma ObjectChain(env: Env)
    requires ObjectName in env.bootclasspath && env.bootclasspath[ObjectName] == ObjectFile
    ensures SuperChain(env, Some(ObjectName), {}) == Ok([ObjectFile])
    ensures InheritedSigs([ObjectFile]) == {} && InheritedInterfaces([ObjectFile]) == {}
  {
    assert [ObjectFile] + [] == [ObjectFile];
  }

  /** `C implements I`, `I` on the classpath only with a default `m()V`, `C` declaring nothing:
      exactly one stub, which loads the receiver, calls `I$$CC.m(LI;)V` and returns void. */
  lemma SingleDefault()
    ensures var env := Companions(map["I" := Interface("I", [], [DefaultM])], map[ObjectName := ObjectFile]);
            var c := Class("C", ObjectName, ["I"]);
            FixClass(env, c, []) == Ok([Header(c), StubM("I"), End])
  {
    var env := Companions(map["I" := Interface("I", [], [DefaultM])], map[ObjectName := ObjectFile]);
    var c := Class("C", ObjectName, ["I"]);
    ObjectChain(env);
    StubOfM(env.classpath, env.bootclasspath, "I");
    var fwd := [Header(c)] + Forwarded([]);
    var init := SweepState(InstanceSigs([]), {}, fwd, []);
    var start := SweepState({}, {}, fwd, []);
    assert init.(methods := init.methods + {}, seen := init.seen + {}) == start;
    var entered := SweepState({}, {"I"}, fwd, ["I"]);
    var after := SweepState({SigOf(DefaultM)}, {"I"}, fwd + [StubM("I")], ["I"]);
    assert ["I"][1..] == [] && [] + ["I"] == ["I"];
    assert "I" in env.classpath && "I" !in env.bootclasspath;
    assert start.(seen := start.seen + {"I"}).(swept := start.swept + ["I"]) == entered;
    assert StubDefaults(env, "I", [DefaultM], entered) == after;
    assert SweepList(env, [], after) == Ok(after);
    assert SweepInterface(env, env.classpath["I"], entered) == Ok(after);
    assert SweepList(env, ["I"], start) == Ok(after);
    assert fwd + [StubM("I")] + [End] == [Header(c), StubM("I"), End];
  }

  /** A diamond: `C implements J, K`, both extending `I`, which declares the default `m()V`:
      `I` is swept once, through `J`, and `m` is stubbed once. */
  lemma Diamond()
    ensures var env := Companions(
              map["I" := Interface("I", [], [DefaultM]),
                  "J" := Interface("J", ["I"], []),
                  "K" := Interface("K", ["I"], [])],
              map[ObjectName := ObjectFile]);
            var c := Class("C", ObjectName, ["J", "K"]);
            FixClass(env, c, []) == Ok([Header(c), StubM("I"), End])
  {
    var env := Companions(
      map["I" := Interface("I", [], [DefaultM]),
          "J" := Interface("J", ["I"], []),
          "K" := Interface("K", ["I"], [])],
      map[ObjectName := ObjectFile]);
    var c := Class("C", ObjectName, ["J", "K"]);
    ObjectChain(env);
    StubOfM(env.classpath, env.bootclasspath, "I");
    var fwd := [Header(c)] + Forwarded([]);
    var init := SweepState(InstanceSigs([]), {}, fwd, []);
    var start := SweepState({}, {}, fwd, []);
    assert init.(methods := init.methods + {}, seen := init.seen + {}) == start;
    var stubbed := fwd + [StubM("I")];
    // through J: I is swept and m stubbed
    var inJ := SweepState({}, {"J"}, fwd, ["J"]);
    var inI := SweepState({}, {"J", "I"}, fwd, ["J", "I"]);
    var afterI := SweepState({SigOf(DefaultM)}, {"J", "I"}, stubbed, ["J", "I"]);
    assert ["I"][1..] == [] && [] + ["J"] == ["J"] && ["J"] + ["I"] == ["J", "I"];
    assert "I" !in env.bootclasspath && "J" !in env.bootclasspath && "K" !in env.bootclasspath;
    assert start.(seen := start.seen + {"J"}).(swept := start.swept + ["J"]) == inJ;
    assert inJ.(seen := inJ.seen + {"I"}).(swept := inJ.swept + ["I"]) == inI;
    assert StubDefaults(env, "I", [DefaultM], inI) == afterI;
    assert SweepList(env, [], afterI) == Ok(afterI);
    assert SweepInterface(env, env.classpath["I"], inI) == Ok(afterI);
    assert SweepList(env, ["I"], inJ) == Ok(afterI);
    assert SweepInterface(env, env.classpath["J"], inJ) == Ok(afterI);
    // through K: I is already seen
    var inK := SweepState({SigOf(DefaultM)}, {"J", "I", "K"}, stubbed, ["J", "I", "K"]);
    assert ["J", "I"] + ["K"] == ["J", "I", "K"];
    assert afterI.(seen := afterI.seen + {"K"}).(swept := afterI.swept + ["K"]) == inK;
    assert SweepList(env, [], inK) == Ok(inK);
    assert SweepList(env, ["I"], inK) == Ok(inK);
    assert SweepInterface(env, env.classpath["K"], inK) == Ok(inK);
    assert ["J", "K"][1..] == ["K"] && ["K"][1..] == [];
    assert SweepList(env, ["K"], afterI) == Ok(inK);
    assert SweepList(env, ["J", "K"], start) == Ok(inK);
    assert stubbed + [End] == [Header(c), StubM("I"), End];
  }

  /** An implemented interface neither source knows is skipped without an error. */
  lemma UnresolvableInterface()
    ensures var env := Companions(map[], map[ObjectName := ObjectFile]);
            var c := Class("C", ObjectName, ["Missing"]);
            FixClass(env, c, []) == Ok([Header(c), End])
  {
    var env := Companions(map[], map[ObjectName := ObjectFile]);
    var c := Class("C", ObjectName, ["Missing"]);
    ObjectChain(env);
    var fwd := [Header(c)] + Forwarded([]);
    var init := SweepState(InstanceSigs([]), {}, fwd, []);
    var start := SweepState({}, {}, fwd, []);
    assert init.(methods := init.methods + {}, seen := init.seen + {}) == start;
    assert ["Missing"][1..] == [];
    assert "Missing" !in env.classpath;
    assert start.(seen := start.seen + {"Missing"}) == start.(seen := {"Missing"});
    assert SweepList(env, [], start.(seen := {"Missing"})) == Ok(start.(seen := {"Missing"}));
    assert SweepList(env, ["Missing"], start) == Ok(start.(seen := {"Missing"}));
    assert fwd + [End] == [Header(c), End];
  }

  /** An interface known to both sources is the bootclasspath's, and is never swept. */
  lemma BootclasspathWins()
    ensures var env := Companions(
              map["I" := Interface("I", [], [DefaultM])],
              map[ObjectName := ObjectFile, "I" := Interface("I", [], [DefaultM])]);
            var c := Class("C", ObjectName, ["I"]);
            FixClass(env, c, []) == Ok([Header(c), End])
  {
    var env := Companions(
      map["I" := Interface("I", [], [DefaultM])],
      map[ObjectName := ObjectFile, "I" := Interface("I", [], [DefaultM])]);
    var c := Class("C", ObjectName, ["I"]);
    ObjectChain(env);
    var fwd := [Header(c)] + Forwarded([]);
    var init := SweepState(InstanceSigs([]), {}, fwd, []);
    var start := SweepState({}, {}, fwd, []);
    assert init.(methods := init.methods + {}, seen := init.seen + {}) == start;
    assert ["I"][1..] == [];
    assert "I" in env.bootclasspath;
    assert start.(seen := start.seen + {"I"}) == start.(seen := {"I"});
    assert SweepList(env, [], start.(seen := {"I"})) == Ok(start.(seen := {"I"}));
    assert SweepList(env, ["I"], start) == Ok(start.(seen := {"I"}));
    assert fwd + [End] == [Header(c), End];
  }

  /** A superclass `B` that declares `m()V` shadows the default, and `I`, which `B` already
      implements, is not swept for `C` at all. */
  lemma InheritedShadows()
    ensures var b := ClassFile(Class("B", ObjectName, ["I"]), [DefaultM]);
            var env := Companions(map["I" := Interface("I", [], [DefaultM]), "B" := b], map[ObjectName := ObjectFile]);
            var c := Class("C", "B", ["I"]);
            FixClass(env, c, []) == Ok([Header(c), End])
  {
    var b := ClassFile(Class("B", ObjectName, ["I"]), [DefaultM]);
    var env := Companions(map["I" := Interface("I", [], [DefaultM]), "B" := b], map[ObjectName := ObjectFile]);
    var c := Class("C", "B", ["I"]);
    assert [ObjectFile] + [] == [ObjectFile] && [b] + [ObjectFile] == [b, ObjectFile];
    assert "B" !in env.bootclasspath && "B" in env.classpath && ObjectName !in {"B"};
    assert {"B"} + {ObjectName} == {"B", ObjectName} && {} + {"B"} == {"B"};
    assert SuperChain(env, None, {"B", ObjectName}) == Ok([]);
    assert SuperChain(env, Some(ObjectName), {"B"}) == Ok([ObjectFile]);
    assert SuperChain(env, Some("B"), {}) == Ok([b, ObjectFile]);
    var chain := [b, ObjectFile];
    assert InheritedSigs(chain) == {SigOf(DefaultM)} by {
      assert DefaultM in chain[0].methods && IsInstanceMethod(DefaultM);
    }
    assert InheritedInterfaces(chain) == {"I"} by {
      assert "I" in chain[0].header.interfaces;
    }
    var fwd := [Header(c)] + Forwarded([]);
    var init := SweepState(InstanceSigs([]), {}, fwd, []);
    var start := SweepState({SigOf(DefaultM)}, {"I"}, fwd, []);
    assert init.(methods := init.methods + InheritedSigs(chain), seen := init.seen + InheritedInterfaces(chain)) == start;
    assert ["I"][1..] == [];
    assert SweepList(env, ["I"], start) == Ok(start);
    assert fwd + [End] == [Header(c), End];
  }

  /** A superclass neither source knows aborts the fix. */
  lemma MissingSuper()
    ensures var env := Companions(map["I" := Interface("I", [], [DefaultM])], map[ObjectName := ObjectFile]);
            FixClass(env, Class("C", "B", ["I"]), []) == Err(SuperclassNotFound("B"))
  {
  }

  /** A class other than the root without a super name is refused outright. */
  lemma NoSuperName()
    ensures var env := Companions(map[], map[]);
            var c := ClassHeader(VERSION, ACC_PUBLIC, "C", None, None, []);
            FixClass(env, c, []) == Err(MissingSuperclass("C"))
  {
  }
}
