/** The fixer's behaviour as functions: the superclass walk, the sweep over implemented
    interfaces that stubs missing default methods, and the whole fix of one class. */
module FixerSpec {
  import opened ClassModel
  import opened StubCode

  function SigOf(m: MethodDecl): Sig {
    Sig(m.name, m.desc)
  }

  /** Methods without ACC_STATIC, abstract, bridge and native ones included, shadow defaults. */
  predicate IsInstanceMethod(m: MethodDecl) {
    NoneSet(m.access, ACC_STATIC)
  }

  /** An interface method with a body to forward to: none of ACC_ABSTRACT, ACC_STATIC, ACC_BRIDGE. */
  predicate IsDefaultMethod(m: MethodDecl) {
    NoneSet(m.access, ACC_ABSTRACT | ACC_STATIC | ACC_BRIDGE)
  }

  function InstanceSigs(ms: seq<MethodDecl>): set<Sig> {
    set m | m in ms && IsInstanceMethod(m) :: SigOf(m)
  }

  /** A class takes part in the fix when it is not an interface and implements something. */
  predicate Participates(isInterface: bool, interfaces: seq<string>) {
    !isInterface && interfaces != []
  }

  // ---------------------------------------------------------------- superclass walk

  function KnownNames(env: Env): set<string> {
    env.classpath.Keys + env.bootclasspath.Keys
  }

  /** A superclass is looked up on the bootclasspath first, then on the classpath. */
  function ResolveSuper(env: Env, name: string): Option<ClassFile> {
    if name in env.bootclasspath then Some(env.bootclasspath[name])
    else if name in env.classpath then Some(env.classpath[name])
    else None
  }

  /** The superclasses reached from `name` by following super names until there is none;
      `walked` holds the names already passed on the way here. */
  function SuperChain(env: Env, name: Option<string>, walked: set<string>): Result<seq<ClassFile>>
    decreases |KnownNames(env) - walked|
  {
    match name
    case None => Ok([])
    case Some(n) =>
      if n in walked then Err(CyclicSuperclassChain(n))
      else match ResolveSuper(env, n)
        case None => Err(SuperclassNotFound(n))
        case Some(c) =>
          if !NoneSet(c.header.access, ACC_INTERFACE) then Err(SuperclassIsInterface(c.header.name))
          else
            MarkShrinks(KnownNames(env), walked, n);
            match SuperChain(env, c.header.superName, walked + {n})
            case Err(e) => Err(e)
            case Ok(rest) => Ok([c] + rest)
  }

  /** Every instance method declared by a class of the chain. */
  function InheritedSigs(chain: seq<ClassFile>): set<Sig> {
    set i, m | 0 <= i < |chain| && m in chain[i].methods && IsInstanceMethod(m) :: SigOf(m)
  }

  /** Every interface a class of the chain implements directly. */
  function InheritedInterfaces(chain: seq<ClassFile>): set<string> {
    set i, n | 0 <= i < |chain| && n in chain[i].header.interfaces :: n
  }

  /** `done` followed by the rest of a walk, or the walk's error. */
  function Prepend(done: seq<ClassFile>, r: Result<seq<ClassFile>>): Result<seq<ClassFile>> {
    match r
    case Ok(rest) => Ok(done + rest)
    case Err(e) => Err(e)
  }

  // ---------------------------------------------------------------- interface sweep

  /** The per-class bookkeeping: the signatures present (inherited, declared or stubbed), the
      interfaces already seen, the downstream event log, and the interfaces swept so far. */
  datatype SweepState = SweepState(
    methods: set<Sig>,
    seen: set<string>,
    out: seq<Event>,
    swept: seq<string>)

  /** The stub a default method `m` of interface `iface` yields: same access, name, descriptor
      and exceptions, no generic signature, a body that forwards to the companion class. */
  function StubFor(env: Env, iface: string, m: MethodDecl): StubMethod {
    StubMethod(
      MethodDecl(m.access, m.name, m.desc, None, m.exceptions),
      ForwardingBody(iface + env.companionSuffix, m.name, m.desc, env.companionDescriptor(iface, m.desc)))
  }

  /** One method of a swept interface: a default method whose signature is not present yet is
      added to the present signatures and stubbed. */
  function StubOne(env: Env, iface: string, m: MethodDecl, st: SweepState): SweepState {
    if IsDefaultMethod(m) && SigOf(m) !in st.methods then
      st.(methods := st.methods + {SigOf(m)}, out := st.out + [Synthesized(StubFor(env, iface, m))])
    else st
  }

  /** All methods of a swept interface, in declaration order. */
  function StubDefaults(env: Env, iface: string, ms: seq<MethodDecl>, st: SweepState): (r: SweepState)
    ensures r.seen == st.seen && r.swept == st.swept
    ensures st.methods <= r.methods
    decreases |ms|
  {
    if ms == [] then st
    else StubDefaults(env, iface, ms[1..], StubOne(env, iface, ms[0], st))
  }

  /** Sweeps a list of interface names. A name already seen is skipped; otherwise it is marked
      seen and, when the classpath knows it and the bootclasspath does not, swept. */
  function SweepList(env: Env, ifaces: seq<string>, st: SweepState): (r: Result<SweepState>)
    ensures r.Ok? ==> st.seen <= r.value.seen && st.methods <= r.value.methods && st.swept <= r.value.swept
    decreases |env.classpath.Keys - st.seen|, 0, |ifaces|
  {
    if ifaces == [] then Ok(st)
    else
      var n := ifaces[0];
      if n in st.seen then SweepList(env, ifaces[1..], st)
      else
        var marked := st.(seen := st.seen + {n});
        MarkNotLarger(env.classpath.Keys, st.seen, n);
        if n in env.classpath && n !in env.bootclasspath then
          MarkShrinks(env.classpath.Keys, st.seen, n);
          match SweepInterface(env, env.classpath[n], marked.(swept := marked.swept + [n]))
          case Err(e) => Err(e)
          case Ok(next) =>
            DifferenceAntitone(env.classpath.Keys, marked.seen, next.seen);
            SweepList(env, ifaces[1..], next)
        else SweepList(env, ifaces[1..], marked)
  }

  /** Sweeps one interface: its own default methods first, then its super-interfaces. */
  function SweepInterface(env: Env, c: ClassFile, st: SweepState): (r: Result<SweepState>)
    ensures r.Ok? ==> st.seen <= r.value.seen && st.methods <= r.value.methods && st.swept <= r.value.swept
    decreases |env.classpath.Keys - st.seen|, 1, 0
  {
    if !IsSet(c.header.access, ACC_INTERFACE) then Err(NotAnInterface(c.header.name))
    else SweepList(env, c.header.interfaces, StubDefaults(env, c.header.name, c.methods, st))
  }

  /** What the end of a participating class does: walk the superclasses, recording their
      instance methods and interfaces, then sweep the class's own interfaces. */
  function EndOfClass(env: Env, superName: Option<string>, interfaces: seq<string>, st: SweepState): Result<SweepState> {
    match SuperChain(env, superName, {})
    case Err(e) => Err(e)
    case Ok(chain) =>
      SweepList(env, interfaces, st.(methods := st.methods + InheritedSigs(chain),
                                     seen := st.seen + InheritedInterfaces(chain)))
  }

  /** The whole fix of one class whose header is `h` and whose declared methods are `ms`:
      everything it receives goes downstream unchanged and in order, with the stubs, if any,
      just before the end event. */
  function FixClass(env: Env, h: ClassHeader, ms: seq<MethodDecl>): Result<seq<Event>> {
    if h.superName.None? && h.name != ObjectName then Err(MissingSuperclass(h.name))
    else
      var forwarded := [Header(h)] + Forwarded(ms);
      if !Participates(IsSet(h.access, ACC_INTERFACE), h.interfaces) then Ok(forwarded + [End])
      else
        match EndOfClass(env, h.superName, h.interfaces, SweepState(InstanceSigs(ms), {}, forwarded, []))
        case Err(e) => Err(e)
        case Ok(st) => Ok(st.out + [End])
  }

  // ---------------------------------------------------------------- measures

  lemma {:induction false} CardSubset<T>(a: set<T>, b: set<T>)
    requires a <= b
    ensures |a| <= |b|
    decreases a
  {
    if a != {} {
      var x :| x in a;
      CardSubset(a - {x}, b - {x});
    }
  }

  /** Seeing more names never makes more names unseen. */
  lemma DifferenceAntitone<T>(k: set<T>, s: set<T>, s': set<T>)
    requires s <= s'
    ensures |k - s'| <= |k - s|
  {
    CardSubset(k - s', k - s);
  }

  /** Marking a known, unseen name shrinks the unseen names. */
  lemma MarkShrinks<T>(k: set<T>, s: set<T>, n: T)
    requires n in k && n !in s
    ensures |k - (s + {n})| < |k - s|
  {
    assert k - (s + {n}) == (k - s) - {n};
  }

  lemma MarkNotLarger<T>(k: set<T>, s: set<T>, n: T)
    ensures |k - (s + {n})| <= |k - s|
  {
    DifferenceAntitone(k, s, s + {n});
  }
}
