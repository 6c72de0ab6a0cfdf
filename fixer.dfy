/** The fixer itself: a class visitor that receives one class's `visit`, `visitMethod` and
    `visitEnd` events, forwards each downstream unchanged, and before the end event adds a
    forwarding stub for the default methods of the interfaces it sweeps whose signatures the
    class neither declares nor inherits from a superclass. The sweep starts at the implemented
    interfaces and follows super-interfaces; it skips interfaces the bootclasspath knows or no
    lookup source knows, and those a superclass implements directly. */
module Fixer {
  import opened ClassModel
  import opened StubCode
  import opened FixerSpec

  class DefaultMethodClassFixer {
    /** The lookup sources and the companion naming convention. */
    const env: Env

    var instanceMethods: set<Sig>
    var seenInterfaces: set<string>
    var isInterface: bool
    /** `None` until `visit` has been called. */
    var interfaces: Option<seq<string>>
    var superName: Option<string>
    /** What the downstream visitor has received so far. */
    var out: seq<Event>
    /** The interfaces swept so far, in order (history only). */
    ghost var swept: seq<string>

    /** The bookkeeping the sweep works on. */
    ghost function State(): SweepState
      reads this
    {
      SweepState(instanceMethods, seenInterfaces, out, swept)
    }

    /** The class records its methods and stubs defaults at its end. */
    ghost predicate Records()
      reads this
    {
      interfaces.Some? && Participates(isInterface, interfaces.value)
    }

    constructor (env: Env)
      ensures this.env == env
      ensures instanceMethods == {} && seenInterfaces == {} && !isInterface
      ensures interfaces == None && superName == None && out == [] && swept == []
    {
      this.env := env;
      instanceMethods, seenInterfaces := {}, {};
      isInterface := false;
      interfaces, superName := None, None;
      out, swept := [], [];
    }

    /** The class header. A second call fails; so does a missing super name on any class but
        the root, after the interface flag has been taken. */
    method Visit(h: ClassHeader) returns (r: Outcome)
      modifies this
      ensures old(interfaces).Some? ==> r == Fail(AlreadyVisited) && unchanged(this)
      ensures old(interfaces).None? ==> isInterface == IsSet(h.access, ACC_INTERFACE)
      ensures old(interfaces).None? && h.superName.None? && h.name != ObjectName ==>
                r == Fail(MissingSuperclass(h.name)) && interfaces.None? && superName == old(superName)
                && out == old(out)
      ensures old(interfaces).None? && (h.superName.Some? || h.name == ObjectName) ==>
                r == Pass && interfaces == Some(h.interfaces) && superName == h.superName
                && out == old(out) + [Header(h)]
      ensures instanceMethods == old(instanceMethods) && seenInterfaces == old(seenInterfaces)
      ensures swept == old(swept)
    {
      if interfaces.Some? {
        return Fail(AlreadyVisited);
      }
      isInterface := IsSet(h.access, ACC_INTERFACE);
      if h.superName.None? && h.name != ObjectName {
        return Fail(MissingSuperclass(h.name));
      }
      interfaces := Some(h.interfaces);
      superName := h.superName;
      out := out + [Header(h)];
      r := Pass;
    }

    /** A method declared by the class: recorded when it is an instance method of a class
        that takes part, and forwarded. */
    method VisitMethod(m: MethodDecl) returns (r: Outcome)
      modifies this
      ensures !old(isInterface) && old(interfaces).None? ==> r == Fail(NotVisited) && unchanged(this)
      ensures old(isInterface) || old(interfaces).Some? ==>
                r == Pass && out == old(out) + [Method(m)]
                && instanceMethods == (if old(Records()) && IsInstanceMethod(m)
                                       then old(instanceMethods) + {SigOf(m)}
                                       else old(instanceMethods))
      ensures seenInterfaces == old(seenInterfaces) && swept == old(swept)
      ensures isInterface == old(isInterface) && interfaces == old(interfaces) && superName == old(superName)
    {
      if !isInterface {
        if interfaces.None? {
          return Fail(NotVisited);
        }
        if interfaces.value != [] {
          RecordIfInstanceMethod(m);
        }
      }
      out := out + [Method(m)];
      r := Pass;
    }

    /** The end of the class: for a class that takes part, walk the superclasses and stub the
        missing default methods; then forward the end event. */
    method VisitEnd() returns (r: Outcome)
      modifies this
      ensures !old(isInterface) && old(interfaces).None? ==> r == Fail(NotVisited) && unchanged(this)
      ensures (old(isInterface) || old(interfaces).Some?) && !old(Records()) ==>
                r == Pass && out == old(out) + [End]
                && instanceMethods == old(instanceMethods) && seenInterfaces == old(seenInterfaces)
                && swept == old(swept)
      ensures old(Records()) ==>
                var res := EndOfClass(env, old(superName), old(interfaces).value, old(State()));
                && (res.Err? ==> r == Fail(res.error))
                && (res.Ok? ==> r == Pass && out == res.value.out + [End]
                                && instanceMethods == res.value.methods
                                && seenInterfaces == res.value.seen && swept == res.value.swept)
      ensures isInterface == old(isInterface) && interfaces == old(interfaces) && superName == old(superName)
    {
      if !isInterface {
        if interfaces.None? {
          return Fail(NotVisited);
        }
        if interfaces.value != [] {
          r := RecordInheritedMethods();
          if r.Fail? {
            return;
          }
          r := StubMissingDefaultMethods(interfaces.value);
          if r.Fail? {
            return;
          }
        }
      }
      out := out + [End];
      r := Pass;
    }

    /** Walks the superclass chain: each superclass is read from the bootclasspath or else the
        classpath, and recorded. */
    method RecordInheritedMethods() returns (r: Outcome)
      modifies this
      ensures var chain := SuperChain(env, old(superName), {});
              && (chain.Err? ==> r == Fail(chain.error))
              && (chain.Ok? ==> r == Pass
                                && instanceMethods == old(instanceMethods) + InheritedSigs(chain.value)
                                && seenInterfaces == old(seenInterfaces) + InheritedInterfaces(chain.value))
      ensures out == old(out) && swept == old(swept)
      ensures isInterface == old(isInterface) && interfaces == old(interfaces) && superName == old(superName)
    {
      var internalName := superName;
      var walked: set<string> := {};
      ghost var done: seq<ClassFile> := [];
      ghost var whole := SuperChain(env, superName, {});
      assert whole.Ok? ==> [] + whole.value == whole.value;
      while internalName.Some?
        invariant SuperChain(env, old(superName), {}) == Prepend(done, SuperChain(env, internalName, walked))
        invariant instanceMethods == old(instanceMethods) + InheritedSigs(done)
        invariant seenInterfaces == old(seenInterfaces) + InheritedInterfaces(done)
        invariant out == old(out) && swept == old(swept)
        invariant isInterface == old(isInterface) && interfaces == old(interfaces) && superName == old(superName)
        decreases |KnownNames(env) - walked|
      {
        var name := internalName.value;
        if name in walked {
          return Fail(CyclicSuperclassChain(name));
        }
        var bytecode := if name in env.bootclasspath then Some(env.bootclasspath[name]) else None;
        if bytecode.None? {
          bytecode := if name in env.classpath then Some(env.classpath[name]) else None;
          if bytecode.None? {
            return Fail(SuperclassNotFound(name));
          }
        }
        var c := bytecode.value;
        assert ResolveSuper(env, name) == Some(c);
        r := RecordSuperclass(c);
        if r.Fail? {
          return;
        }
        InheritedAppend(done, c);
        ChainStep(env, done, name, walked, c);
        MarkShrinks(KnownNames(env), walked, name);
        done := done + [c];
        walked := walked + {name};
        internalName := c.header.superName;
      }
      assert done + [] == done;
      r := Pass;
    }

    /** Reads one superclass through the recorder: its header, then its methods. */
    method RecordSuperclass(c: ClassFile) returns (r: Outcome)
      modifies this
      ensures !NoneSet(c.header.access, ACC_INTERFACE) ==> r == Fail(SuperclassIsInterface(c.header.name)) && unchanged(this)
      ensures NoneSet(c.header.access, ACC_INTERFACE) ==>
                && r == Pass
                && instanceMethods == old(instanceMethods) + InstanceSigs(c.methods)
                && seenInterfaces == old(seenInterfaces) + set n | n in c.header.interfaces
      ensures out == old(out) && swept == old(swept)
      ensures isInterface == old(isInterface) && interfaces == old(interfaces) && superName == old(superName)
    {
      r := RecorderVisit(c);
      if r.Fail? {
        return;
      }
      label Step:
      for j := 0 to |c.methods|
        invariant instanceMethods == old@Step(instanceMethods) + InstanceSigs(c.methods[..j])
        invariant seenInterfaces == old@Step(seenInterfaces)
        invariant out == old(out) && swept == old(swept)
        invariant isInterface == old(isInterface) && interfaces == old(interfaces) && superName == old(superName)
      {
        assert c.methods[..j + 1] == c.methods[..j] + [c.methods[j]];
        RecordIfInstanceMethod(c.methods[j]);
      }
      assert c.methods[..|c.methods|] == c.methods;
    }

    /** The recorder's view of a superclass header: it must not be an interface, and the
        interfaces it implements count as seen. */
    method RecorderVisit(c: ClassFile) returns (r: Outcome)
      modifies this
      ensures !NoneSet(c.header.access, ACC_INTERFACE) ==> r == Fail(SuperclassIsInterface(c.header.name)) && unchanged(this)
      ensures NoneSet(c.header.access, ACC_INTERFACE) ==>
                r == Pass && seenInterfaces == old(seenInterfaces) + set n | n in c.header.interfaces
      ensures instanceMethods == old(instanceMethods) && out == old(out) && swept == old(swept)
      ensures isInterface == old(isInterface) && interfaces == old(interfaces) && superName == old(superName)
    {
      if !NoneSet(c.header.access, ACC_INTERFACE) {
        return Fail(SuperclassIsInterface(c.header.name));
      }
      var ifaces := c.header.interfaces;
      for i := 0 to |ifaces|
        invariant seenInterfaces == old(seenInterfaces) + set n | n in ifaces[..i]
        invariant instanceMethods == old(instanceMethods) && out == old(out) && swept == old(swept)
        invariant isInterface == old(isInterface) && interfaces == old(interfaces) && superName == old(superName)
      {
        assert ifaces[..i + 1] == ifaces[..i] + [ifaces[i]];
        seenInterfaces := seenInterfaces + {ifaces[i]};
      }
      assert ifaces[..|ifaces|] == ifaces;
      r := Pass;
    }

    /** Records the signature of an instance method. */
    method RecordIfInstanceMethod(m: MethodDecl)
      modifies this
      ensures instanceMethods == if IsInstanceMethod(m) then old(instanceMethods) + {SigOf(m)} else old(instanceMethods)
      ensures seenInterfaces == old(seenInterfaces) && out == old(out) && swept == old(swept)
      ensures isInterface == old(isInterface) && interfaces == old(interfaces) && superName == old(superName)
    {
      if NoneSet(m.access, ACC_STATIC) {
        instanceMethods := instanceMethods + {SigOf(m)};
      }
    }

    /** Sweeps a list of interfaces, each at most once. */
    method StubMissingDefaultMethods(ifaces: seq<string>) returns (r: Outcome)
      modifies this
      decreases |env.classpath.Keys - seenInterfaces|, 0
      ensures var res := SweepList(env, ifaces, old(State()));
              && (res.Err? ==> r == Fail(res.error))
              && (res.Ok? ==> r == Pass && State() == res.value)
      ensures isInterface == old(isInterface) && interfaces == old(interfaces) && superName == old(superName)
    {
      for i := 0 to |ifaces|
        invariant SweepList(env, ifaces, old(State())) == SweepList(env, ifaces[i..], State())
        invariant old(seenInterfaces) <= seenInterfaces
        invariant isInterface == old(isInterface) && interfaces == old(interfaces) && superName == old(superName)
      {
        var implemented := ifaces[i];
        ghost var before := seenInterfaces;
        assert ifaces[i..][1..] == ifaces[i + 1..];
        if implemented in seenInterfaces {
          continue;
        }
        MarkNotLarger(env.classpath.Keys, seenInterfaces, implemented);
        seenInterfaces := seenInterfaces + {implemented};
        if implemented in env.classpath && implemented !in env.bootclasspath {
          MarkShrinks(env.classpath.Keys, before, implemented);
          DifferenceAntitone(env.classpath.Keys, old(seenInterfaces), before);
          swept := swept + [implemented];
          r := StubInterface(env.classpath[implemented]);
          if r.Fail? {
            return;
          }
        }
      }
      r := Pass;
    }

    /** The stubber for one interface: its header, then its methods, then its own
        super-interfaces. */
    method StubInterface(c: ClassFile) returns (r: Outcome)
      modifies this
      decreases |env.classpath.Keys - seenInterfaces|, 1
      ensures var res := SweepInterface(env, c, old(State()));
              && (res.Err? ==> r == Fail(res.error))
              && (res.Ok? ==> r == Pass && State() == res.value)
      ensures isInterface == old(isInterface) && interfaces == old(interfaces) && superName == old(superName)
    {
      if !IsSet(c.header.access, ACC_INTERFACE) {
        return Fail(NotAnInterface(c.header.name));
      }
      var interfaceName := c.header.name;
      for i := 0 to |c.methods|
        invariant StubDefaults(env, interfaceName, c.methods, old(State()))
                  == StubDefaults(env, interfaceName, c.methods[i..], State())
        invariant seenInterfaces == old(seenInterfaces)
        invariant isInterface == old(isInterface) && interfaces == old(interfaces) && superName == old(superName)
      {
        assert c.methods[i..][1..] == c.methods[i + 1..];
        StubberVisitMethod(interfaceName, c.methods[i]);
      }
      r := StubMissingDefaultMethods(c.header.interfaces);
    }

    /** One method of a swept interface: a default method not yet present gets a stub. */
    method StubberVisitMethod(interfaceName: string, m: MethodDecl)
      modifies this
      ensures State() == StubOne(env, interfaceName, m, old(State()))
      ensures isInterface == old(isInterface) && interfaces == old(interfaces) && superName == old(superName)
    {
      if NoneSet(m.access, ACC_ABSTRACT | ACC_STATIC | ACC_BRIDGE) && SigOf(m) !in instanceMethods {
        instanceMethods := instanceMethods + {SigOf(m)};
        var code := EmitForwardingBody(interfaceName + env.companionSuffix, m.name, m.desc,
                                       env.companionDescriptor(interfaceName, m.desc));
        out := out + [Synthesized(StubMethod(MethodDecl(m.access, m.name, m.desc, None, m.exceptions), code))];
      }
    }
  }

  /** One step of the superclass walk, seen from the start of the walk. */
  lemma ChainStep(env: Env, done: seq<ClassFile>, name: string, walked: set<string>, c: ClassFile)
    requires name !in walked && ResolveSuper(env, name) == Some(c)
    requires NoneSet(c.header.access, ACC_INTERFACE)
    ensures Prepend(done, SuperChain(env, Some(name), walked))
            == Prepend(done + [c], SuperChain(env, c.header.superName, walked + {name}))
  {
    match SuperChain(env, c.header.superName, walked + {name})
    case Err(e) =>
    case Ok(rest) =>
      assert done + ([c] + rest) == (done + [c]) + rest;
  }

  /** Adding one class at the end of a walked chain adds its instance methods and interfaces. */
  lemma InheritedAppend(done: seq<ClassFile>, c: ClassFile)
    ensures InheritedSigs(done + [c]) == InheritedSigs(done) + InstanceSigs(c.methods)
    ensures InheritedInterfaces(done + [c]) == InheritedInterfaces(done) + set n | n in c.header.interfaces
  {
    var d := done + [c];
    forall s | s in InheritedSigs(d)
      ensures s in InheritedSigs(done) + InstanceSigs(c.methods)
    {
      var i, m :| 0 <= i < |d| && m in d[i].methods && IsInstanceMethod(m) && s == SigOf(m);
      if i < |done| {
        assert d[i] == done[i];
      }
    }
    forall s | s in InheritedSigs(done)
      ensures s in InheritedSigs(d)
    {
      var i, m :| 0 <= i < |done| && m in done[i].methods && IsInstanceMethod(m) && s == SigOf(m);
      assert d[i] == done[i];
    }
    forall s | s in InstanceSigs(c.methods)
      ensures s in InheritedSigs(d)
    {
      var m :| m in c.methods && IsInstanceMethod(m) && s == SigOf(m);
      assert d[|done|] == c;
    }
    forall n | n in InheritedInterfaces(d)
      ensures n in InheritedInterfaces(done) + set x | x in c.header.interfaces
    {
      var i :| 0 <= i < |d| && n in d[i].header.interfaces;
      if i < |done| {
        assert d[i] == done[i];
      }
    }
    forall n | n in InheritedInterfaces(done)
      ensures n in InheritedInterfaces(d)
    {
      var i :| 0 <= i < |done| && n in done[i].header.interfaces;
      assert d[i] == done[i];
    }
    forall n | n in c.header.interfaces
      ensures n in InheritedInterfaces(d)
    {
      assert d[|done|] == c;
    }
  }

  /** Feeds one class through a fresh fixer, as a class reader does: the header, each declared
      method, the end. The result is what the downstream visitor receives, or the failure. */
  method FixStream(env: Env, h: ClassHeader, ms: seq<MethodDecl>) returns (r: Result<seq<Event>>)
    ensures r == FixClass(env, h, ms)
  {
    var fixer := new DefaultMethodClassFixer(env);
    var o := fixer.Visit(h);
    if o.Fail? {
      return Err(o.error);
    }
    var records := Participates(IsSet(h.access, ACC_INTERFACE), h.interfaces);
    for i := 0 to |ms|
      invariant fixer.env == env
      invariant fixer.isInterface == IsSet(h.access, ACC_INTERFACE)
      invariant fixer.interfaces == Some(h.interfaces) && fixer.superName == h.superName
      invariant fixer.out == [Header(h)] + Forwarded(ms[..i])
      invariant fixer.instanceMethods == if records then InstanceSigs(ms[..i]) else {}
      invariant fixer.seenInterfaces == {} && fixer.swept == []
    {
      assert ms[..i + 1] == ms[..i] + [ms[i]];
      assert Forwarded(ms[..i + 1]) == Forwarded(ms[..i]) + [Method(ms[i])];
      o := fixer.VisitMethod(ms[i]);
    }
    assert ms[..|ms|] == ms;
    o := fixer.VisitEnd();
    if o.Fail? {
      return Err(o.error);
    }
    r := Ok(fixer.out);
  }
}
