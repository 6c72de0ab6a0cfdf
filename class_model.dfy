/** The declaration-level slice of a JVM class file that the default-method fixer looks at,
    the events it forwards downstream, and the lookup sources it consults. */
module ClassModel {

  /** Access flags of a class or method: the JVM's `int` flag word. */
  type Access = bv32

  const ACC_STATIC: Access := 0x0008
  const ACC_BRIDGE: Access := 0x0040
  const ACC_INTERFACE: Access := 0x0200
  const ACC_ABSTRACT: Access := 0x0400

  /** The name of the one class that may lack a superclass. */
  const ObjectName: string := "java/lang/Object"

  /** Every bit of `flags` is set in `access`. */
  predicate IsSet(access: Access, flags: Access) {
    access & flags == flags
  }

  /** No bit of `flags` is set in `access`. */
  predicate NoneSet(access: Access, flags: Access) {
    access & flags == 0
  }

  datatype Option<T> = None | Some(value: T)

  /** A parsed field type of a method descriptor (arrays are references). */
  datatype JType =
    | Boolean | Char | Byte | Short | Int | Float | Long | Double | Void
    | Reference(descriptor: string)

  /** A method descriptor, already parsed: argument types and return type. */
  datatype Desc = Desc(args: seq<JType>, ret: JType)

  /** The identity of an instance method: its name and descriptor (the `name:desc` key). */
  datatype Sig = Sig(name: string, desc: Desc)

  /** A method declaration as a class visitor receives it. */
  datatype MethodDecl = MethodDecl(
    access: Access,
    name: string,
    desc: Desc,
    signature: Option<string>,
    exceptions: seq<string>)

  /** The arguments of a class visitor's `visit` call. */
  datatype ClassHeader = ClassHeader(
    version: int,
    access: Access,
    name: string,
    signature: Option<string>,
    superName: Option<string>,
    interfaces: seq<string>)

  /** What a class reader delivers for a class found on a lookup source. */
  datatype ClassFile = ClassFile(header: ClassHeader, methods: seq<MethodDecl>)

  /** The instructions a stub body is made of. */
  datatype Insn =
    | VarInsn(opcode: int, slot: nat)
    | MethodInsn(opcode: int, owner: string, name: string, desc: Desc, itf: bool)
    | SimpleInsn(opcode: int)

  /** A synthesized forwarding method: its declaration and its body. */
  datatype StubMethod = StubMethod(decl: MethodDecl, code: seq<Insn>)

  /** What the downstream class visitor receives. `Method` is a forwarded declaration of the
      class itself; `Synthesized` is a stub the fixer adds. */
  datatype Event =
    | Header(header: ClassHeader)
    | Method(decl: MethodDecl)
    | Synthesized(stub: StubMethod)
    | End

  /** The ways fixing a class can fail. */
  datatype Error =
    | AlreadyVisited                     // `visit` called a second time
    | NotVisited                         // `visitMethod` or `visitEnd` before `visit`
    | MissingSuperclass(name: string)    // no super name on a class other than the root
    | SuperclassNotFound(name: string)   // a superclass on neither lookup source
    | SuperclassIsInterface(name: string)
    | CyclicSuperclassChain(name: string)
    | NotAnInterface(name: string)       // an implemented "interface" without the interface flag

  datatype Result<T> = Ok(value: T) | Err(error: Error)

  datatype Outcome = Pass | Fail(error: Error)

  /** The collaborators of the fixer: the two lookup sources, and the naming convention of the
      companion classes that hold the bodies of default methods. */
  datatype Env = Env(
    classpath: map<string, ClassFile>,
    bootclasspath: map<string, ClassFile>,
    companionSuffix: string,
    companionDescriptor: (string, Desc) -> Desc)

  /** The events a sequence of method declarations is forwarded as. */
  function Forwarded(ms: seq<MethodDecl>): seq<Event> {
    seq(|ms|, i requires 0 <= i < |ms| => Method(ms[i]))
  }

  /** Only synthesized methods. */
  predicate AllSynthesized(evs: seq<Event>) {
    forall i | 0 <= i < |evs| :: evs[i].Synthesized?
  }
}
