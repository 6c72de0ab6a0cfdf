# Default-method class fixer, modelled in Dafny

The model covers the desugar step that makes classes compiled against Java 8 interfaces run
on a platform without default methods. Each default method moves to a static method of the
interface's *companion class*. `DefaultMethodClassFixer` then patches every class that
implements such an interface. For each default method that the class neither declares nor
inherits from a superclass, it adds a forwarding *stub* to the class. The stub loads the
receiver and the arguments, calls the companion method statically, and returns its result.

The fixer is a class visitor. It receives `visit`, then `visitMethod` once per declared
method, then `visitEnd`. It forwards every event downstream unchanged. Just before the end
event it inserts the stubs. To find them it keeps two sets:
- the signatures of instance methods present in the class: declared, inherited, or already
  stubbed;
- the interfaces already seen.

It fills these sets in two steps:
- a walk up the superclass chain, reading each superclass from the bootclasspath and else the
  classpath;
- a depth-first sweep over the implemented interfaces and their super-interfaces. The sweep
  visits only interfaces that the classpath knows and the bootclasspath does not.

The project has six modules:

- `ClassModel` (`class_model.dfy`): access flags (as `bv32`), parsed method descriptors,
  class headers, method declarations, the events sent downstream, the errors, and `Env`. `Env`
  holds the two lookup sources and the companion naming convention.
- `StubCode` (`stub_code.dfy`): the body of a stub as a function. A method emits it with the
  source's running slot counter, and lemmas give the slot accounting.
- `FixerSpec` (`fixer_spec.dfy`): the fixer's behaviour as functions:
  - `SuperChain`: the superclass walk;
  - `SweepList` and `SweepInterface`: the interface sweep;
  - `FixClass`: the whole fix of one class.
- `Fixer` (`fixer.dfy`): the class `DefaultMethodClassFixer` with the source's mutable fields.
  Its visitor methods, the superclass walk, the recorder, the recursive sweep and the stubber
  are each proved against the functions of `FixerSpec`. `FixStream` feeds one class through a
  fresh fixer, and its result is proved equal to `FixClass`.
- `FixerProperties` (`fixer_properties.dfy`): what the fixer promises, proved for all inputs.
- `Scenarios` (`scenarios.dfy`): what `FixClass` yields for small concrete class hierarchies, proved as lemmas.

## Model

Source cells are paths relative to the repository root.

| member | source | states |
|---|---|---|
| Fixer.DefaultMethodClassFixer.constructor | src/tools/android/java/com/google/devtools/build/android/desugar/DefaultMethodClassFixer.java:34-48 | a fresh fixer has empty instance-method and seen-interface sets, has not been visited, and has sent nothing downstream |
| Fixer.DefaultMethodClassFixer.Visit | src/tools/android/java/com/google/devtools/build/android/desugar/DefaultMethodClassFixer.java:51-65 | a second `visit` fails and changes nothing; the interface flag is taken first; a missing super name on a class other than `java/lang/Object` fails; otherwise the interfaces and super name are stored and the header is forwarded unchanged |
| Fixer.DefaultMethodClassFixer.VisitMethod | src/tools/android/java/com/google/devtools/build/android/desugar/DefaultMethodClassFixer.java:78-86 | before `visit` (not an interface, no interface list) it fails; in a class that is not an interface and implements something, the signature of an instance method is recorded; the declaration is always forwarded unchanged |
| Fixer.DefaultMethodClassFixer.VisitEnd | src/tools/android/java/com/google/devtools/build/android/desugar/DefaultMethodClassFixer.java:67-76 | a non-participating class just gets the end event; a participating one is first walked and swept exactly as `EndOfClass` describes, its failure is reported, and on success the end event follows the stubs |
| Fixer.DefaultMethodClassFixer.RecordInheritedMethods | src/tools/android/java/com/google/devtools/build/android/desugar/DefaultMethodClassFixer.java:88-99 | the loop over super names fails exactly when `SuperChain` fails, with its error; otherwise it adds every instance signature and every directly implemented interface of the whole chain, and sends nothing downstream |
| Fixer.DefaultMethodClassFixer.RecordSuperclass | src/tools/android/java/com/google/devtools/build/android/desugar/DefaultMethodClassFixer.java:193-224 | one superclass read by the recorder: rejected when flagged as an interface; otherwise its interfaces become seen and its instance signatures present |
| Fixer.DefaultMethodClassFixer.RecorderVisit | src/tools/android/java/com/google/devtools/build/android/desugar/DefaultMethodClassFixer.java:199-216 | the recorder's header: rejects an interface-flagged superclass; otherwise adds exactly its directly implemented interfaces to the seen set |
| Fixer.DefaultMethodClassFixer.RecordIfInstanceMethod | src/tools/android/java/com/google/devtools/build/android/desugar/DefaultMethodClassFixer.java:101-107 | the signature is added exactly when the method is not static (abstract, bridge and native methods count) |
| Fixer.DefaultMethodClassFixer.StubMissingDefaultMethods | src/tools/android/java/com/google/devtools/build/android/desugar/DefaultMethodClassFixer.java:109-123 | the loop leaves the state `SweepList` computes from the old state, or fails with its error: a seen name is skipped, an unseen one is marked, and only one the classpath knows and the bootclasspath does not is swept |
| Fixer.DefaultMethodClassFixer.StubInterface | src/tools/android/java/com/google/devtools/build/android/desugar/DefaultMethodClassFixer.java:138-155 | the stubber: a class without the interface flag is rejected; otherwise its methods are stubbed in order, then its super-interfaces swept, leaving the state `SweepInterface` computes |
| Fixer.DefaultMethodClassFixer.StubberVisitMethod | src/tools/android/java/com/google/devtools/build/android/desugar/DefaultMethodClassFixer.java:157-190 | a method without ACC_ABSTRACT, ACC_STATIC and ACC_BRIDGE whose signature is absent gets its signature added and exactly one stub emitted, which keeps access, name, descriptor and exceptions, drops the generic signature and carries the forwarding body; any other method changes nothing |
| Fixer.FixStream | src/tools/android/java/com/google/devtools/build/android/desugar/DefaultMethodClassFixer.java:43-86 | driving a fresh fixer with the header, each method and the end yields exactly `FixClass`: the downstream events or the failure |
| StubCode.EmitForwardingBody | src/tools/android/java/com/google/devtools/build/android/desugar/DefaultMethodClassFixer.java:171-184 | the loop with the running slot emits exactly the receiver load, one load per argument at its slot, the static call to the companion and the typed return |
| StubCode.ArgLoadsAtIsLoadsFrom | src/tools/android/java/com/google/devtools/build/android/desugar/DefaultMethodClassFixer.java:171-177 | the closed form (argument i at base plus the widths of the arguments before it) equals the running counter that advances by each argument's size |
| StubCode.ForwardingBodyLoads | src/tools/android/java/com/google/devtools/build/android/desugar/DefaultMethodClassFixer.java:171-184 | a stub body has one instruction per argument plus three: `ALOAD 0`, the argument loads in order from slot 1, `INVOKESTATIC` of the companion (not an interface call), the return for the return type |
| StubCode.IntLongObjectStub | src/tools/android/java/com/google/devtools/build/android/desugar/DefaultMethodClassFixer.java:171-177 | for arguments (int, long, Object) the loads are `ALOAD 0`, `ILOAD 1`, `LLOAD 2`, `ALOAD 4`: four argument slots, the long taking two |
| FixerSpec.StubDefaults | src/tools/android/java/com/google/devtools/build/android/desugar/DefaultMethodClassFixer.java:157-161 | handling an interface's own methods leaves the seen set and the sweep history alone and only adds signatures |
| FixerSpec.SweepList | src/tools/android/java/com/google/devtools/build/android/desugar/DefaultMethodClassFixer.java:109-123 | a successful sweep only adds seen interfaces and present signatures |
| FixerSpec.SweepInterface | src/tools/android/java/com/google/devtools/build/android/desugar/DefaultMethodClassFixer.java:146-155 | the same for one interface and its super-interfaces |
| FixerProperties.SweepListExtends | src/tools/android/java/com/google/devtools/build/android/desugar/DefaultMethodClassFixer.java:109-123 | a successful sweep only appends stubs, each forwarding a default method of a swept interface; no two stubs share a signature and none repeats a signature already present; the present signatures grow by exactly the stubs' ones; each interface is swept at most once, only if unseen before, and only from the classpath and never when the bootclasspath knows it |
| FixerProperties.SweepInterfaceExtends | src/tools/android/java/com/google/devtools/build/android/desugar/DefaultMethodClassFixer.java:138-161 | the same for the sweep of one interface and its super-interfaces |
| FixerProperties.EndOfClassStubs | src/tools/android/java/com/google/devtools/build/android/desugar/DefaultMethodClassFixer.java:67-123 | at the end of a participating class no stub repeats a signature the class declares or any superclass declares; no signature is stubbed twice; no interface implemented directly by a superclass is swept; bootclasspath interfaces are never swept; every stub comes from a default method of a swept interface |
| FixerProperties.SweepListSeen | src/tools/android/java/com/google/devtools/build/android/desugar/DefaultMethodClassFixer.java:109-123 | every listed interface ends up seen, and every interface newly seen on the way that the classpath knows and the bootclasspath does not is swept |
| FixerProperties.SweepListClosed | src/tools/android/java/com/google/devtools/build/android/desugar/DefaultMethodClassFixer.java:109-123 | every super-interface named by an interface the sweep enters ends up seen |
| FixerProperties.SweepInterfaceClosed | src/tools/android/java/com/google/devtools/build/android/desugar/DefaultMethodClassFixer.java:152-155 | the same for the sweep of one interface, whose super-interfaces are swept after its own methods |
| FixerProperties.SweepInterfaceSeen | src/tools/android/java/com/google/devtools/build/android/desugar/DefaultMethodClassFixer.java:146-155 | the same for one interface: every super-interface it names ends up seen |
| FixerProperties.SweepListCovered | src/tools/android/java/com/google/devtools/build/android/desugar/DefaultMethodClassFixer.java:109-123 | if every default method of an interface swept so far has its signature present, this stays so after the sweep |
| FixerProperties.SweepInterfaceCovered | src/tools/android/java/com/google/devtools/build/android/desugar/DefaultMethodClassFixer.java:154-161 | the same for an interface just entered: after its methods are handled each of its default methods has its signature present, and the sweep of its super-interfaces keeps the property |
| FixerProperties.EndOfClassComplete | src/tools/android/java/com/google/devtools/build/android/desugar/DefaultMethodClassFixer.java:67-123 | at the end of a participating class every implemented interface is seen; every interface newly seen and not implemented directly by a superclass, known to the classpath and not to the bootclasspath, is swept; the super-interfaces of every swept interface are seen; each default method of a swept interface is declared, inherited from a superclass, or stubbed |
| FixerProperties.FixClassAddsOnly | src/tools/android/java/com/google/devtools/build/android/desugar/DefaultMethodClassFixer.java:64-86 | the header and every declared method go downstream unchanged and in order, the end event is last, only stubs lie between, and a class that is an interface or implements nothing gains nothing |
| FixerProperties.NonParticipantUntouched | src/tools/android/java/com/google/devtools/build/android/desugar/DefaultMethodClassFixer.java:67-86 | for an interface or a class with no interfaces the result does not depend on the lookup sources (no superclass is resolved) and is the input unchanged |
| FixerProperties.FixClassStubsAreNew | src/tools/android/java/com/google/devtools/build/android/desugar/DefaultMethodClassFixer.java:157-161 | the stubs of a fixed class have pairwise distinct signatures, none of them that of an instance method of the class or of a superclass |
| FixerProperties.FixClassStubsComplete | src/tools/android/java/com/google/devtools/build/android/desugar/DefaultMethodClassFixer.java:67-123 | a default method of an interface the class implements, not implemented directly by a superclass, on the classpath and not the bootclasspath, is declared by the class, inherited from a superclass, or stubbed in the fixed class |
| FixerProperties.FixClassStubsReachable | src/tools/android/java/com/google/devtools/build/android/desugar/DefaultMethodClassFixer.java:67-123 | a default method of an interface reached from an implemented one through classpath-only super-interfaces, none implemented directly by a superclass (a diamond's apex included), is declared by the class, inherited from a superclass, or stubbed; with `FixClassStubsAreNew`, such a default needing a stub is stubbed exactly once |
| FixerProperties.StubDefaultsOnlyOwn | src/tools/android/java/com/google/devtools/build/android/desugar/DefaultMethodClassFixer.java:157-169 | an interface's own methods yield only stubs, each forwarding one of its own default methods |
| FixerProperties.StubDefaultsCovers | src/tools/android/java/com/google/devtools/build/android/desugar/DefaultMethodClassFixer.java:160-169 | every default method of the interface whose signature was absent gets a stub with that signature |
| FixerProperties.StubDefaultsSigs | src/tools/android/java/com/google/devtools/build/android/desugar/DefaultMethodClassFixer.java:160-161 | after an interface's methods are handled, the signature of each of its default methods is present |
| FixerProperties.OwnDefaultsWin | src/tools/android/java/com/google/devtools/build/android/desugar/DefaultMethodClassFixer.java:152-161 | first writer wins: a default method of a swept interface whose signature was absent gets a stub, and every stub with that signature forwards to a default method of that interface, never to one of a super-interface swept after it |
| FixerProperties.StubDefaultsAgain | src/tools/android/java/com/google/devtools/build/android/desugar/DefaultMethodClassFixer.java:160-161 | with every signature a first pass ended with already present, an interface's methods add nothing |
| FixerProperties.SweepListAgain | src/tools/android/java/com/google/devtools/build/android/desugar/DefaultMethodClassFixer.java:109-123 | with every signature the first sweep ended with already present, the sweep visits the same interfaces and emits nothing |
| FixerProperties.SweepInterfaceAgain | src/tools/android/java/com/google/devtools/build/android/desugar/DefaultMethodClassFixer.java:138-161 | the same for one interface |
| FixerProperties.InstanceSigsWithStubs | src/tools/android/java/com/google/devtools/build/android/desugar/DefaultMethodClassFixer.java:160-169 | a stub copies the access flags of a default method, so it is an instance method: declaring the stubs adds exactly their signatures to the class's instance methods |
| FixerProperties.FixTwiceAddsNothing | src/tools/android/java/com/google/devtools/build/android/desugar/DefaultMethodClassFixer.java:67-86 | running the fixer over its own output (the stubs now declared) succeeds and adds no stub |
| FixerProperties.SuperChainShape | src/tools/android/java/com/google/devtools/build/android/desugar/DefaultMethodClassFixer.java:88-99 | a successful walk starts at what the super name resolves to, bootclasspath first; each next class is what the previous one's super name resolves to; none is an interface; it ends at a class without a super name |
| FixerProperties.SuperChainFailures | src/tools/android/java/com/google/devtools/build/android/desugar/DefaultMethodClassFixer.java:88-99 | a walk fails only at a name it reaches by following super names through found, non-interface classes: a name on neither source, a name resolving to a class flagged as an interface, or a name already walked or already passed on the way |
| FixerProperties.SweepListFails | src/tools/android/java/com/google/devtools/build/android/desugar/DefaultMethodClassFixer.java:109-123 | a sweep fails only with the not-an-interface error for a class it enters: one the classpath knows and the bootclasspath does not, reached from a listed name through super-interfaces none of which was seen before; an unknown or bootclasspath interface never makes it fail |
| FixerProperties.SweepInterfaceFails | src/tools/android/java/com/google/devtools/build/android/desugar/DefaultMethodClassFixer.java:146-154 | the sweep of one class fails at once, naming that class, when it lacks the interface flag, and otherwise only on a class reached through its super-interfaces as for a list |
| FixerProperties.FixClassFailures | src/tools/android/java/com/google/devtools/build/android/desugar/DefaultMethodClassFixer.java:60-146 | a fix fails only for a missing super name on a class other than the root, for the error of the superclass walk, or for a class the sweep enters, reached from the implemented interfaces through ones no superclass implements directly, that lacks the interface flag |
| Scenarios.StubOfM | src/tools/android/java/com/google/devtools/build/android/desugar/DefaultMethodClassFixer.java:168-184 | the stub of `m()V` loads the receiver, calls `m` of the `$$CC` companion with the receiver as its one argument, and returns void |
| Scenarios.SingleDefault | src/tools/android/java/com/google/devtools/build/android/desugar/DefaultMethodClassFixer.java:109-190 | `C implements I`, `I` on the classpath with a default `m()V`: exactly one stub, forwarding to `I$$CC.m(LI;)V` |
| Scenarios.Diamond | src/tools/android/java/com/google/devtools/build/android/desugar/DefaultMethodClassFixer.java:109-114 | `C implements J, K`, both extending `I` with a default `m()V`: `m` is stubbed exactly once |
| Scenarios.UnresolvableInterface | src/tools/android/java/com/google/devtools/build/android/desugar/DefaultMethodClassFixer.java:115-121 | an interface neither source knows is skipped without error |
| Scenarios.BootclasspathWins | src/tools/android/java/com/google/devtools/build/android/desugar/DefaultMethodClassFixer.java:115-121 | an interface on both sources is never swept, so its defaults are not stubbed |
| Scenarios.InheritedShadows | src/tools/android/java/com/google/devtools/build/android/desugar/DefaultMethodClassFixer.java:205-221 | a superclass declaring `m()V` and implementing `I` leaves `C implements I` without stubs |
| Scenarios.MissingSuper | src/tools/android/java/com/google/devtools/build/android/desugar/DefaultMethodClassFixer.java:92-95 | a superclass on neither source aborts the fix with a not-found failure |
| Scenarios.NoSuperName | src/tools/android/java/com/google/devtools/build/android/desugar/DefaultMethodClassFixer.java:60-61 | a class other than `java/lang/Object` without a super name is refused |

## Left out

- Reading and writing class files (ASM's `ClassReader` and `ClassWriter`) is not part of this model. A class arrives as its header and method declarations, with method descriptors already parsed into argument and return types.
- The lookup sources (`ClassReaderFactory.readIfKnown` and `isKnown`) are modelled as maps from binary names to parsed classes.
- `InterfaceDesugaring.COMPANION_SUFFIX` and `companionDefaultMethodDescriptor` are not part of this model. They are the `companionSuffix` and `companionDescriptor` parameters of `Env`.
- The set key `name + ":" + desc` is modelled as the pair `Sig(name, desc)`. The pair is injective. The source's concatenation is injective for the names javac emits, but not for every name the class-file format allows, since method names and descriptors may both contain `:` and `(`: `m` with `(Lfoo:(Lbar;)V` and `m:(Lfoo` with `(Lbar;)V` share the key `m:(Lfoo:(Lbar;)V` in the source but are two different `Sig`s in the model.
- Method bodies of the fixed class, and the other visitor events (fields, annotations, inner classes, source and debug attributes), pass through a `ClassVisitor` unchanged and are not modelled. The `SKIP_CODE | SKIP_DEBUG` reading flags only skip what the model never sees.
- Of the stub's code, the model keeps the instructions. `visitMaxs(0, 0)` and the stub's `visitEnd` are not modelled, because the writer computes the maxima.
- The stub is emitted through the fixer's own `visitMethod`. There its `recordIfInstanceMethod` call adds a signature the stubber has just added, so the model appends the stub event directly.
- A `null` exceptions array is modelled as the empty sequence, and a `null` generic signature as `None`.
- The stubber's `checkState(this.interfaces == null)` cannot fail, because every swept interface gets a fresh stubber. It is not modelled.
- Fixer.DefaultMethodClassFixer.VisitEnd: on failure the contract states only the reported error, not the fields. Stubs emitted before the failure remain sent downstream, as in the source. `FixClass` reports only the error.
- SuperChain: a superclass chain that returns to a class already passed makes the source loop forever. The model reports it as `CyclicSuperclassChain` instead. Well-formed class hierarchies have no such chain.
- The seen-interface tracking stays best-effort, as in the source. A superclass's interfaces are marked seen, but not their super-interfaces. `EndOfClassStubs` states exactly this: a directly implemented interface of a superclass is never swept.
- Partial output on failure: a failing fix is not all-or-nothing. The code emits each stub while the sweep runs, so a later interface without the interface flag (`NotAnInterface`) aborts the fix after earlier stubs have gone downstream. The imperative model follows the code. Superclass failures come before any stub.
