/** What the fixer promises, proved about its functional description: it only adds stubs
    before the end event; inherited and declared instance methods block stubs; each signature
    is stubbed and each interface swept at most once; stubs come only from default methods of
    swept interfaces; a sub-interface's default beats its parent's; a second run adds nothing. */
module FixerProperties {
  import opened ClassModel
  import opened FixerSpec

  // ---------------------------------------------------------------- vocabulary

  ghost predicate Distinct<T>(s: seq<T>) {
    forall i, j | 0 <= i < j < |s| :: s[i] != s[j]
  }

  /** The signatures of the stubs among `evs`. */
  ghost function StubSigs(evs: seq<Event>): set<Sig> {
    set i | 0 <= i < |evs| && evs[i].Synthesized? :: SigOf(evs[i].stub.decl)
  }

  /** No two stubs among `evs` share a signature. */
  ghost predicate UniqueStubSigs(evs: seq<Event>) {
    forall i, j | 0 <= i < j < |evs| && evs[i].Synthesized? && evs[j].Synthesized? ::
      SigOf(evs[i].stub.decl) != SigOf(evs[j].stub.decl)
  }

  /** `e` is the stub of a default method of an interface swept from the classpath. */
  ghost predicate FromSwept(env: Env, swept: seq<string>, e: Event) {
    && e.Synthesized?
    && exists n, m | n in swept && n in env.classpath && m in env.classpath[n].methods ::
         IsDefaultMethod(m) && e.stub == StubFor(env, env.classpath[n].header.name, m)
  }

  /** How the sweep bookkeeping may grow from `a` to `b`: the log gains only stubs, each for a
      default method of a swept interface, no two with one signature and none with a signature
      present in `a`; the present signatures gain exactly the stubs' signatures; the newly swept
      interfaces are distinct, were unseen in `a`, are seen in `b`, are on the classpath and
      are not on the bootclasspath. */
  ghost predicate Extends(env: Env, a: SweepState, b: SweepState) {
    && a.out <= b.out
    && a.swept <= b.swept
    && a.seen <= b.seen
    && var stubs := b.out[|a.out|..];
       var newSwept := b.swept[|a.swept|..];
       && AllSynthesized(stubs)
       && b.methods == a.methods + StubSigs(stubs)
       && StubSigs(stubs) !! a.methods
       && UniqueStubSigs(stubs)
       && Distinct(newSwept)
       && (forall n | n in newSwept :: n !in a.seen && n in b.seen)
       && (forall n | n in newSwept :: n in env.classpath && n !in env.bootclasspath)
       && (forall i | 0 <= i < |stubs| :: FromSwept(env, b.swept, stubs[i]))
  }

  // ---------------------------------------------------------------- growth steps

  lemma StubSigsAppend(s1: seq<Event>, s2: seq<Event>)
    ensures StubSigs(s1 + s2) == StubSigs(s1) + StubSigs(s2)
  {
    var s := s1 + s2;
    forall x | x in StubSigs(s)
      ensures x in StubSigs(s1) + StubSigs(s2)
    {
      var i :| 0 <= i < |s| && s[i].Synthesized? && x == SigOf(s[i].stub.decl);
      if i < |s1| {
        assert s[i] == s1[i];
      } else {
        assert s[i] == s2[i - |s1|];
      }
    }
    forall x | x in StubSigs(s1)
      ensures x in StubSigs(s)
    {
      var i :| 0 <= i < |s1| && s1[i].Synthesized? && x == SigOf(s1[i].stub.decl);
      assert s[i] == s1[i];
    }
    forall x | x in StubSigs(s2)
      ensures x in StubSigs(s)
    {
      var i :| 0 <= i < |s2| && s2[i].Synthesized? && x == SigOf(s2[i].stub.decl);
      assert s[|s1| + i] == s2[i];
    }
  }

  lemma PrefixMembers<T>(p: seq<T>, q: seq<T>)
    requires p <= q
    ensures forall x | x in p :: x in q
  {
    forall x | x in p
      ensures x in q
    {
      var i :| 0 <= i < |p| && p[i] == x;
      assert q[i] == x;
    }
  }

  lemma AllSynthesizedAppend(s1: seq<Event>, s2: seq<Event>)
    requires AllSynthesized(s1) && AllSynthesized(s2)
    ensures AllSynthesized(s1 + s2)
  {
    var s := s1 + s2;
    forall i | 0 <= i < |s|
      ensures s[i].Synthesized?
    {
      if i >= |s1| {
        assert s[i] == s2[i - |s1|];
      }
    }
  }

  /** Two runs of stubs with distinct signatures, where the second avoids the first's, make one. */
  lemma UniqueStubSigsAppend(s1: seq<Event>, s2: seq<Event>)
    requires UniqueStubSigs(s1) && UniqueStubSigs(s2) && StubSigs(s1) !! StubSigs(s2)
    ensures UniqueStubSigs(s1 + s2)
  {
    var s := s1 + s2;
    forall i, j | 0 <= i < j < |s| && s[i].Synthesized? && s[j].Synthesized?
      ensures SigOf(s[i].stub.decl) != SigOf(s[j].stub.decl)
    {
      if j < |s1| {
        assert s[i] == s1[i] && s[j] == s1[j];
      } else if i >= |s1| {
        assert s[i] == s2[i - |s1|] && s[j] == s2[j - |s1|];
      } else {
        assert s[i] == s1[i] && s[j] == s2[j - |s1|];
        assert SigOf(s[i].stub.decl) in StubSigs(s1);
        assert SigOf(s[j].stub.decl) in StubSigs(s2);
      }
    }
  }

  lemma DistinctAppend<T>(w1: seq<T>, w2: seq<T>)
    requires Distinct(w1) && Distinct(w2) && forall n | n in w2 :: n !in w1
    ensures Distinct(w1 + w2)
  {
    var w := w1 + w2;
    forall i, j | 0 <= i < j < |w|
      ensures w[i] != w[j]
    {
      if j < |w1| {
        assert w[i] == w1[i] && w[j] == w1[j];
      } else if i >= |w1| {
        assert w[i] == w2[i - |w1|] && w[j] == w2[j - |w1|];
      } else {
        assert w[i] == w1[i] && w[j] == w2[j - |w1|];
        assert w2[j - |w1|] in w2;
      }
    }
  }

  lemma FromSweptGrows(env: Env, swept: seq<string>, swept': seq<string>, e: Event)
    requires swept <= swept' && FromSwept(env, swept, e)
    ensures FromSwept(env, swept', e)
  {
    PrefixMembers(swept, swept');
  }

  lemma ExtendsTrans(env: Env, a: SweepState, b: SweepState, c: SweepState)
    requires Extends(env, a, b) && Extends(env, b, c)
    ensures Extends(env, a, c)
  {
    var s1, s2 := b.out[|a.out|..], c.out[|b.out|..];
    var w1, w2 := b.swept[|a.swept|..], c.swept[|b.swept|..];
    assert c.out[|a.out|..] == s1 + s2;
    assert c.swept[|a.swept|..] == w1 + w2;
    StubSigsAppend(s1, s2);
    AllSynthesizedAppend(s1, s2);
    UniqueStubSigsAppend(s1, s2);
    DistinctAppend(w1, w2);
    var w := w1 + w2;
    forall n | n in w
      ensures n !in a.seen && n in c.seen && n in env.classpath && n !in env.bootclasspath
    {
      if n !in w1 {
        assert n in w2;
      }
    }
    var s := s1 + s2;
    forall i | 0 <= i < |s|
      ensures FromSwept(env, c.swept, s[i])
    {
      if i < |s1| {
        assert s[i] == s1[i];
        FromSweptGrows(env, b.swept, c.swept, s1[i]);
      } else {
        assert s[i] == s2[i - |s1|];
      }
    }
  }

  /** Only the seen names grow. */
  lemma ExtendsBySeen(env: Env, a: SweepState, seen: set<string>)
    requires a.seen <= seen
    ensures Extends(env, a, a.(seen := seen))
  {
    assert a.out[|a.out|..] == [];
    assert a.swept[|a.swept|..] == [];
    assert StubSigs([]) == {};
  }

  /** An unseen name of the classpath, unknown to the bootclasspath, is marked and swept. */
  lemma ExtendsBySweep(env: Env, a: SweepState, n: string)
    requires n !in a.seen && n in env.classpath && n !in env.bootclasspath
    ensures Extends(env, a, a.(seen := a.seen + {n}, swept := a.swept + [n]))
  {
    assert a.out[|a.out|..] == [];
    assert (a.swept + [n])[|a.swept|..] == [n];
    assert StubSigs([]) == {};
  }

  lemma {:induction false} ExtendsByStubDefaults(env: Env, n: string, ms: seq<MethodDecl>, a: SweepState)
    requires n in a.swept && n in env.classpath
    requires forall m | m in ms :: m in env.classpath[n].methods
    ensures Extends(env, a, StubDefaults(env, env.classpath[n].header.name, ms, a))
    decreases |ms|
  {
    var iface := env.classpath[n].header.name;
    if ms == [] {
      ExtendsBySeen(env, a, a.seen);
      assert a.(seen := a.seen) == a;
    } else {
      var m := ms[0];
      var a1 := StubOne(env, iface, m, a);
      if IsDefaultMethod(m) && SigOf(m) !in a.methods {
        var stubs := a1.out[|a.out|..];
        assert stubs == [Synthesized(StubFor(env, iface, m))];
        assert StubSigs(stubs) == {SigOf(m)} by {
          assert stubs[0].Synthesized? && SigOf(stubs[0].stub.decl) == SigOf(m);
        }
        assert a1.swept[|a.swept|..] == [];
        assert FromSwept(env, a1.swept, stubs[0]);
        assert Extends(env, a, a1);
      } else {
        ExtendsBySeen(env, a, a.seen);
        assert a.(seen := a.seen) == a;
      }
      ExtendsByStubDefaults(env, n, ms[1..], a1);
      ExtendsTrans(env, a, a1, StubDefaults(env, iface, ms[1..], a1));
    }
  }

  // ---------------------------------------------------------------- the sweep

  /** The sweep of a list of interfaces only grows the bookkeeping as `Extends` allows. */
  lemma {:induction false} SweepListExtends(env: Env, ifaces: seq<string>, st: SweepState)
    requires SweepList(env, ifaces, st).Ok?
    ensures Extends(env, st, SweepList(env, ifaces, st).value)
    decreases |env.classpath.Keys - st.seen|, 0, |ifaces|
  {
    var r := SweepList(env, ifaces, st).value;
    if ifaces == [] {
      ExtendsBySeen(env, st, st.seen);
      assert st.(seen := st.seen) == st;
    } else {
      var n := ifaces[0];
      if n in st.seen {
        SweepListExtends(env, ifaces[1..], st);
      } else {
        var marked := st.(seen := st.seen + {n});
        MarkNotLarger(env.classpath.Keys, st.seen, n);
        if n in env.classpath && n !in env.bootclasspath {
          MarkShrinks(env.classpath.Keys, st.seen, n);
          var entered := marked.(swept := marked.swept + [n]);
          var next := SweepInterface(env, env.classpath[n], entered).value;
          ExtendsBySweep(env, st, n);
          assert n in entered.swept;
          SweepInterfaceExtends(env, n, entered);
          DifferenceAntitone(env.classpath.Keys, marked.seen, next.seen);
          SweepListExtends(env, ifaces[1..], next);
          ExtendsTrans(env, st, entered, next);
          ExtendsTrans(env, st, next, r);
        } else {
          ExtendsBySeen(env, st, marked.seen);
          SweepListExtends(env, ifaces[1..], marked);
          ExtendsTrans(env, st, marked, r);
        }
      }
    }
  }

  /** The same for one swept interface `n`. */
  lemma {:induction false} SweepInterfaceExtends(env: Env, n: string, st: SweepState)
    requires n in st.swept && n in env.classpath
    requires SweepInterface(env, env.classpath[n], st).Ok?
    ensures Extends(env, st, SweepInterface(env, env.classpath[n], st).value)
    decreases |env.classpath.Keys - st.seen|, 1, 0
  {
    var c := env.classpath[n];
    var mid := StubDefaults(env, c.header.name, c.methods, st);
    ExtendsByStubDefaults(env, n, c.methods, st);
    SweepListExtends(env, c.header.interfaces, mid);
    ExtendsTrans(env, st, mid, SweepList(env, c.header.interfaces, mid).value);
  }

  /** The end of a participating class: the chain's instance methods and the class's own
      block stubs, each signature is stubbed at most once, the interfaces swept are distinct,
      none is implemented directly by a superclass, all come from the classpath and none is on
      the bootclasspath, and every stub forwards a default method of a swept interface. */
  lemma EndOfClassStubs(env: Env, superName: Option<string>, ifaces: seq<string>, st: SweepState)
    requires EndOfClass(env, superName, ifaces, st).Ok?
    ensures SuperChain(env, superName, {}).Ok?
    ensures st.out <= EndOfClass(env, superName, ifaces, st).value.out
    ensures st.swept <= EndOfClass(env, superName, ifaces, st).value.swept
    ensures var chain := SuperChain(env, superName, {}).value;
            var r := EndOfClass(env, superName, ifaces, st).value;
            var stubs := r.out[|st.out|..];
            var newSwept := r.swept[|st.swept|..];
            && st.out <= r.out && AllSynthesized(stubs)
            && StubSigs(stubs) !! (st.methods + InheritedSigs(chain))
            && UniqueStubSigs(stubs)
            && r.methods == st.methods + InheritedSigs(chain) + StubSigs(stubs)
            && st.swept <= r.swept && Distinct(newSwept)
            && (forall n | n in newSwept ::
                  && n !in st.seen && n !in InheritedInterfaces(chain)
                  && n in env.classpath && n !in env.bootclasspath)
            && (forall i | 0 <= i < |stubs| :: FromSwept(env, r.swept, stubs[i]))
  {
    var chain := SuperChain(env, superName, {}).value;
    var start := st.(methods := st.methods + InheritedSigs(chain), seen := st.seen + InheritedInterfaces(chain));
    SweepListExtends(env, ifaces, start);
  }

  // ---------------------------------------------------------------- whole class

  /** The fixer only adds: the header and the declared methods go downstream unchanged and in
      order, the end event goes last, and what lies between is stubs; a class that does not
      take part gains nothing. */
  lemma FixClassAddsOnly(env: Env, h: ClassHeader, ms: seq<MethodDecl>)
    requires FixClass(env, h, ms).Ok?
    ensures var out := FixClass(env, h, ms).value;
            var forwarded := [Header(h)] + Forwarded(ms);
            && |forwarded| < |out|
            && out[..|forwarded|] == forwarded
            && out[|out| - 1] == End
            && AllSynthesized(out[|forwarded|..|out| - 1])
            && (!Participates(IsSet(h.access, ACC_INTERFACE), h.interfaces) ==> out == forwarded + [End])
  {
    var out := FixClass(env, h, ms).value;
    var forwarded := [Header(h)] + Forwarded(ms);
    if Participates(IsSet(h.access, ACC_INTERFACE), h.interfaces) {
      var st := SweepState(InstanceSigs(ms), {}, forwarded, []);
      EndOfClassStubs(env, h.superName, h.interfaces, st);
      var r := EndOfClass(env, h.superName, h.interfaces, st).value;
      assert out == r.out + [End];
      assert out[|forwarded|..|out| - 1] == r.out[|forwarded|..];
    } else {
      assert out[|forwarded|..|out| - 1] == [];
    }
  }

  /** A class that is an interface, or that implements nothing, passes through unchanged, and
      what happens does not depend on the lookup sources at all. */
  lemma NonParticipantUntouched(env: Env, other: Env, h: ClassHeader, ms: seq<MethodDecl>)
    requires !Participates(IsSet(h.access, ACC_INTERFACE), h.interfaces)
    ensures FixClass(env, h, ms) == FixClass(other, h, ms)
    ensures h.superName.Some? || h.name == ObjectName ==>
              FixClass(env, h, ms) == Ok([Header(h)] + Forwarded(ms) + [End])
  {
  }

  /** No stub repeats the signature of an instance method the class declares or a superclass
      declares, and no two stubs share a signature. */
  lemma FixClassStubsAreNew(env: Env, h: ClassHeader, ms: seq<MethodDecl>)
    requires FixClass(env, h, ms).Ok?
    requires Participates(IsSet(h.access, ACC_INTERFACE), h.interfaces)
    ensures SuperChain(env, h.superName, {}).Ok?
    ensures 1 + |ms| < |FixClass(env, h, ms).value|
    ensures var out := FixClass(env, h, ms).value;
            var stubs := out[1 + |ms|..|out| - 1];
            && StubSigs(stubs) !! (InstanceSigs(ms) + InheritedSigs(SuperChain(env, h.superName, {}).value))
            && UniqueStubSigs(stubs)
  {
    var forwarded := [Header(h)] + Forwarded(ms);
    var st := SweepState(InstanceSigs(ms), {}, forwarded, []);
    EndOfClassStubs(env, h.superName, h.interfaces, st);
    var r := EndOfClass(env, h.superName, h.interfaces, st).value;
    var out := FixClass(env, h, ms).value;
    assert out == r.out + [End];
    assert out[1 + |ms|..|out| - 1] == r.out[|forwarded|..];
  }

  // ---------------------------------------------------------------- first writer wins

  /** `e` is the stub of one of the default methods `ms` of interface `iface`. */
  ghost predicate IsOwnStub(env: Env, iface: string, ms: seq<MethodDecl>, e: Event) {
    e.Synthesized? && exists m | m in ms :: IsDefaultMethod(m) && e.stub == StubFor(env, iface, m)
  }

  /** An interface's own methods yield only stubs of its own default methods. */
  lemma {:induction false} StubDefaultsOnlyOwn(env: Env, iface: string, ms: seq<MethodDecl>, st: SweepState)
    ensures st.out <= StubDefaults(env, iface, ms, st).out
    ensures var r := StubDefaults(env, iface, ms, st);
            forall i | |st.out| <= i < |r.out| :: IsOwnStub(env, iface, ms, r.out[i])
    decreases |ms|
  {
    if ms != [] {
      var m0 := ms[0];
      var st1 := StubOne(env, iface, m0, st);
      var r := StubDefaults(env, iface, ms[1..], st1);
      StubDefaultsOnlyOwn(env, iface, ms[1..], st1);
      forall i | |st.out| <= i < |r.out|
        ensures IsOwnStub(env, iface, ms, r.out[i])
      {
        if i < |st1.out| {
          assert r.out[i] == st1.out[i] == Synthesized(StubFor(env, iface, m0));
        } else {
          assert IsOwnStub(env, iface, ms[1..], r.out[i]);
          var m :| m in ms[1..] && IsDefaultMethod(m) && r.out[i].stub == StubFor(env, iface, m);
          assert m in ms;
        }
      }
    }
  }

  /** Every default method among an interface's own methods whose signature was absent gets a
      stub with that signature. */
  lemma {:induction false} StubDefaultsCovers(env: Env, iface: string, ms: seq<MethodDecl>, st: SweepState, m: MethodDecl)
    requires m in ms && IsDefaultMethod(m) && SigOf(m) !in st.methods
    ensures var r := StubDefaults(env, iface, ms, st);
            exists i | |st.out| <= i < |r.out| :: r.out[i].Synthesized? && SigOf(r.out[i].stub.decl) == SigOf(m)
    decreases |ms|
  {
    var st1 := StubOne(env, iface, ms[0], st);
    var r := StubDefaults(env, iface, ms[1..], st1);
    StubDefaultsOnlyOwn(env, iface, ms[1..], st1);
    assert StubDefaults(env, iface, ms, st) == r;
    assert |st.out| <= |st1.out|;
    if SigOf(m) in st1.methods {
      assert st1.out == st.out + [Synthesized(StubFor(env, iface, ms[0]))];
      assert SigOf(ms[0]) == SigOf(m);
      var i := |st.out|;
      assert r.out[i] == st1.out[i];
      assert r.out[i].Synthesized? && SigOf(r.out[i].stub.decl) == SigOf(m);
    } else {
      assert m in ms[1..];
      StubDefaultsCovers(env, iface, ms[1..], st1, m);
      var i :| |st1.out| <= i < |r.out| && r.out[i].Synthesized? && SigOf(r.out[i].stub.decl) == SigOf(m);
    }
  }

  /** An interface's own defaults beat those of its super-interfaces: when a swept interface
      declares a default method whose signature is absent, the class gets a stub with that
      signature, and every stub with it forwards to a default method of that interface. */
  lemma OwnDefaultsWin(env: Env, n: string, st: SweepState, m: MethodDecl)
    requires n in st.swept && n in env.classpath
    requires SweepInterface(env, env.classpath[n], st).Ok?
    requires m in env.classpath[n].methods && IsDefaultMethod(m) && SigOf(m) !in st.methods
    ensures var c := env.classpath[n];
            var r := SweepInterface(env, c, st).value;
            && (exists i | |st.out| <= i < |r.out| :: r.out[i].Synthesized? && SigOf(r.out[i].stub.decl) == SigOf(m))
            && (forall i | |st.out| <= i < |r.out| && r.out[i].Synthesized? && SigOf(r.out[i].stub.decl) == SigOf(m) ::
                  IsOwnStub(env, c.header.name, c.methods, r.out[i]))
  {
    var c := env.classpath[n];
    var mid := StubDefaults(env, c.header.name, c.methods, st);
    var r := SweepInterface(env, c, st).value;
    StubDefaultsOnlyOwn(env, c.header.name, c.methods, st);
    StubDefaultsCovers(env, c.header.name, c.methods, st, m);
    StubDefaultsSigs(env, c.header.name, c.methods, st, m);
    SweepListExtends(env, c.header.interfaces, mid);
    assert r == SweepList(env, c.header.interfaces, mid).value;
    var i0 :| |st.out| <= i0 < |mid.out| && mid.out[i0].Synthesized? && SigOf(mid.out[i0].stub.decl) == SigOf(m);
    assert r.out[i0] == mid.out[i0];
    forall i | |st.out| <= i < |r.out| && r.out[i].Synthesized? && SigOf(r.out[i].stub.decl) == SigOf(m)
      ensures IsOwnStub(env, c.header.name, c.methods, r.out[i])
    {
      if i < |mid.out| {
        assert r.out[i] == mid.out[i];
      } else {
        assert false;
      }
    }
  }

  /** After an interface's own methods are handled, every default among them has its
      signature present. */
  lemma {:induction false} StubDefaultsSigs(env: Env, iface: string, ms: seq<MethodDecl>, st: SweepState, m: MethodDecl)
    requires m in ms && IsDefaultMethod(m)
    ensures SigOf(m) in StubDefaults(env, iface, ms, st).methods
    decreases |ms|
  {
    var st1 := StubOne(env, iface, ms[0], st);
    if m == ms[0] {
      assert SigOf(m) in st1.methods;
    } else {
      StubDefaultsSigs(env, iface, ms[1..], st1, m);
    }
  }

  // ---------------------------------------------------------------- a second run

  lemma {:induction false} StubDefaultsAgain(env: Env, iface: string, ms: seq<MethodDecl>, st: SweepState, st': SweepState)
    requires StubDefaults(env, iface, ms, st).methods <= st'.methods
    ensures StubDefaults(env, iface, ms, st') == st'
    decreases |ms|
  {
    if ms != [] {
      var st1 := StubOne(env, iface, ms[0], st);
      assert StubOne(env, iface, ms[0], st') == st' by {
        assert st1.methods <= StubDefaults(env, iface, ms[1..], st1).methods;
        assert SigOf(ms[0]) in st1.methods || !IsDefaultMethod(ms[0]);
      }
      StubDefaultsAgain(env, iface, ms[1..], st1, st');
    }
  }

  /** Sweeping again, with every signature the first sweep ended with already present, takes
      the same path through the interfaces and stubs nothing. */
  lemma {:induction false} SweepListAgain(env: Env, ifaces: seq<string>, st: SweepState, st': SweepState)
    requires SweepList(env, ifaces, st).Ok?
    requires st'.seen == st.seen && st'.swept == st.swept
    requires SweepList(env, ifaces, st).value.methods <= st'.methods
    ensures var r := SweepList(env, ifaces, st).value;
            SweepList(env, ifaces, st') == Ok(st'.(seen := r.seen, swept := r.swept))
    decreases |env.classpath.Keys - st.seen|, 0, |ifaces|
  {
    var r := SweepList(env, ifaces, st).value;
    if ifaces == [] {
      assert st'.(seen := r.seen, swept := r.swept) == st';
    } else {
      var n := ifaces[0];
      if n in st.seen {
        SweepListAgain(env, ifaces[1..], st, st');
      } else {
        var marked := st.(seen := st.seen + {n});
        var marked' := st'.(seen := st'.seen + {n});
        MarkNotLarger(env.classpath.Keys, st.seen, n);
        if n in env.classpath && n !in env.bootclasspath {
          MarkShrinks(env.classpath.Keys, st.seen, n);
          var entered := marked.(swept := marked.swept + [n]);
          var entered' := marked'.(swept := marked'.swept + [n]);
          var c := env.classpath[n];
          var next := SweepInterface(env, c, entered).value;
          DifferenceAntitone(env.classpath.Keys, marked.seen, next.seen);
          assert next.methods <= r.methods;
          SweepInterfaceAgain(env, c, entered, entered');
          var next' := entered'.(seen := next.seen, swept := next.swept);
          SweepListAgain(env, ifaces[1..], next, next');
          assert next'.(seen := r.seen, swept := r.swept) == st'.(seen := r.seen, swept := r.swept);
        } else {
          SweepListAgain(env, ifaces[1..], marked, marked');
          assert marked'.(seen := r.seen, swept := r.swept) == st'.(seen := r.seen, swept := r.swept);
        }
      }
    }
  }

  lemma {:induction false} SweepInterfaceAgain(env: Env, c: ClassFile, st: SweepState, st': SweepState)
    requires SweepInterface(env, c, st).Ok?
    requires st'.seen == st.seen && st'.swept == st.swept
    requires SweepInterface(env, c, st).value.methods <= st'.methods
    ensures var r := SweepInterface(env, c, st).value;
            SweepInterface(env, c, st') == Ok(st'.(seen := r.seen, swept := r.swept))
    decreases |env.classpath.Keys - st.seen|, 1, 0
  {
    var mid := StubDefaults(env, c.header.name, c.methods, st);
    StubDefaultsAgain(env, c.header.name, c.methods, st, st');
    SweepListAgain(env, c.header.interfaces, mid, st');
  }

  /** The declarations of the stubs among `evs`. */
  function StubDecls(evs: seq<Event>): seq<MethodDecl> {
    if evs == [] then []
    else (if evs[0].Synthesized? then [evs[0].stub.decl] else []) + StubDecls(evs[1..])
  }

  lemma DefaultIsInstance(m: MethodDecl)
    requires IsDefaultMethod(m)
    ensures IsInstanceMethod(m)
  {
  }

  /** Declaring the stubs' methods in the class adds their signatures to its instance methods. */
  lemma {:induction false} InstanceSigsWithStubs(env: Env, swept: seq<string>, ms: seq<MethodDecl>, stubs: seq<Event>)
    requires forall i | 0 <= i < |stubs| :: FromSwept(env, swept, stubs[i])
    ensures InstanceSigs(ms + StubDecls(stubs)) == InstanceSigs(ms) + StubSigs(stubs)
    decreases |stubs|
  {
    if stubs == [] {
      assert ms + StubDecls(stubs) == ms;
      assert StubSigs(stubs) == {};
    } else {
      var e := stubs[0];
      assert FromSwept(env, swept, e);
      var n, m :| n in swept && n in env.classpath && m in env.classpath[n].methods
                  && IsDefaultMethod(m) && e.stub == StubFor(env, env.classpath[n].header.name, m);
      DefaultIsInstance(m);
      var ms1 := ms + [e.stub.decl];
      assert ms + StubDecls(stubs) == ms1 + StubDecls(stubs[1..]);
      forall i | 0 <= i < |stubs[1..]|
        ensures FromSwept(env, swept, stubs[1..][i])
      {
        assert stubs[1..][i] == stubs[i + 1];
      }
      InstanceSigsWithStubs(env, swept, ms1, stubs[1..]);
      assert InstanceSigs(ms1) == InstanceSigs(ms) + {SigOf(e.stub.decl)};
      assert stubs == [e] + stubs[1..];
      StubSigsAppend([e], stubs[1..]);
      assert StubSigs([e]) == {SigOf(e.stub.decl)} by {
        assert [e][0] == e;
      }
    }
  }

  /** Running the fixer again over its own output, the stubs now declared in the class, adds
      no stub: the second output is exactly what it receives. */
  lemma FixTwiceAddsNothing(env: Env, h: ClassHeader, ms: seq<MethodDecl>)
    requires FixClass(env, h, ms).Ok?
    ensures 1 + |ms| < |FixClass(env, h, ms).value|
    ensures var out := FixClass(env, h, ms).value;
            var ms2 := ms + StubDecls(out[1 + |ms|..|out| - 1]);
            FixClass(env, h, ms2) == Ok([Header(h)] + Forwarded(ms2) + [End])
  {
    FixClassAddsOnly(env, h, ms);
    var out := FixClass(env, h, ms).value;
    var stubs := out[1 + |ms|..|out| - 1];
    var ms2 := ms + StubDecls(stubs);
    var forwarded := [Header(h)] + Forwarded(ms);
    if !Participates(IsSet(h.access, ACC_INTERFACE), h.interfaces) {
      assert out == forwarded + [End];
      assert stubs == [];
      assert ms2 == ms;
    } else {
      var st := SweepState(InstanceSigs(ms), {}, forwarded, []);
      EndOfClassStubs(env, h.superName, h.interfaces, st);
      var chain := SuperChain(env, h.superName, {}).value;
      var r := EndOfClass(env, h.superName, h.interfaces, st).value;
      assert out == r.out + [End];
      assert stubs == r.out[|forwarded|..];
      InstanceSigsWithStubs(env, r.swept, ms, stubs);
      var forwarded2 := [Header(h)] + Forwarded(ms2);
      var start := st.(methods := st.methods + InheritedSigs(chain), seen := InheritedInterfaces(chain));
      var start2 := SweepState(InstanceSigs(ms2) + InheritedSigs(chain), InheritedInterfaces(chain), forwarded2, []);
      assert {} + InheritedInterfaces(chain) == InheritedInterfaces(chain);
      assert r == SweepList(env, h.interfaces, start).value;
      SweepListAgain(env, h.interfaces, start, start2);
    }
  }

  // ---------------------------------------------------------------- coverage

  /** Every default method of every swept interface has its signature present. */
  ghost predicate Covered(env: Env, swept: seq<string>, methods: set<Sig>) {
    forall n, m | n in swept && n in env.classpath && m in env.classpath[n].methods && IsDefaultMethod(m) ::
      SigOf(m) in methods
  }

  /** The sweep reaches everything it should: every listed interface ends up seen, and every
      interface newly seen on the way that the classpath knows and the bootclasspath does not,
      whether listed or reached as a super-interface, is swept. */
  lemma {:induction false} SweepListSeen(env: Env, ifaces: seq<string>, st: SweepState)
    requires SweepList(env, ifaces, st).Ok?
    ensures var r := SweepList(env, ifaces, st).value;
            && (forall n | n in ifaces :: n in r.seen)
            && (forall n | n in r.seen && n !in st.seen && n in env.classpath && n !in env.bootclasspath :: n in r.swept)
    decreases |env.classpath.Keys - st.seen|, 0, |ifaces|
  {
    var r := SweepList(env, ifaces, st).value;
    if ifaces != [] {
      var n := ifaces[0];
      var rest := ifaces[1..];
      if n in st.seen {
        SweepListSeen(env, rest, st);
      } else {
        var marked := st.(seen := st.seen + {n});
        MarkNotLarger(env.classpath.Keys, st.seen, n);
        if n in env.classpath && n !in env.bootclasspath {
          MarkShrinks(env.classpath.Keys, st.seen, n);
          var entered := marked.(swept := marked.swept + [n]);
          var next := SweepInterface(env, env.classpath[n], entered).value;
          SweepInterfaceSeen(env, env.classpath[n], entered);
          DifferenceAntitone(env.classpath.Keys, marked.seen, next.seen);
          SweepListSeen(env, rest, next);
          PrefixMembers(entered.swept, r.swept);
          PrefixMembers(next.swept, r.swept);
          assert n in entered.swept;
        } else {
          SweepListSeen(env, rest, marked);
        }
      }
      forall x | x in ifaces
        ensures x in r.seen
      {
        if x != n {
          assert x in rest;
        }
      }
    }
  }

  /** The same for one interface: its super-interfaces end up seen. */
  lemma {:induction false} SweepInterfaceSeen(env: Env, c: ClassFile, st: SweepState)
    requires SweepInterface(env, c, st).Ok?
    ensures var r := SweepInterface(env, c, st).value;
            && (forall n | n in c.header.interfaces :: n in r.seen)
            && (forall n | n in r.seen && n !in st.seen && n in env.classpath && n !in env.bootclasspath :: n in r.swept)
    decreases |env.classpath.Keys - st.seen|, 1, 0
  {
    SweepListSeen(env, c.header.interfaces, StubDefaults(env, c.header.name, c.methods, st));
  }

  /** Every default method of a swept interface has its signature present afterwards: it was
      declared, inherited, or stubbed by this interface or an earlier one. */
  lemma {:induction false} SweepListCovered(env: Env, ifaces: seq<string>, st: SweepState)
    requires SweepList(env, ifaces, st).Ok?
    requires Covered(env, st.swept, st.methods)
    ensures var r := SweepList(env, ifaces, st).value;
            Covered(env, r.swept, r.methods)
    decreases |env.classpath.Keys - st.seen|, 0, |ifaces|
  {
    if ifaces != [] {
      var n := ifaces[0];
      if n in st.seen {
        SweepListCovered(env, ifaces[1..], st);
      } else {
        var marked := st.(seen := st.seen + {n});
        MarkNotLarger(env.classpath.Keys, st.seen, n);
        if n in env.classpath && n !in env.bootclasspath {
          MarkShrinks(env.classpath.Keys, st.seen, n);
          var entered := marked.(swept := marked.swept + [n]);
          var next := SweepInterface(env, env.classpath[n], entered).value;
          SweepInterfaceCovered(env, n, st.swept, entered);
          DifferenceAntitone(env.classpath.Keys, marked.seen, next.seen);
          SweepListCovered(env, ifaces[1..], next);
        } else {
          SweepListCovered(env, ifaces[1..], marked);
        }
      }
    }
  }

  /** The same for the interface `n` just appended to the swept ones after `pre`. */
  lemma {:induction false} SweepInterfaceCovered(env: Env, n: string, pre: seq<string>, st: SweepState)
    requires n in env.classpath && st.swept == pre + [n]
    requires SweepInterface(env, env.classpath[n], st).Ok?
    requires Covered(env, pre, st.methods)
    ensures var r := SweepInterface(env, env.classpath[n], st).value;
            Covered(env, r.swept, r.methods)
    decreases |env.classpath.Keys - st.seen|, 1, 0
  {
    var c := env.classpath[n];
    var mid := StubDefaults(env, c.header.name, c.methods, st);
    forall x, m | x in mid.swept && x in env.classpath && m in env.classpath[x].methods && IsDefaultMethod(m)
      ensures SigOf(m) in mid.methods
    {
      if x == n {
        StubDefaultsSigs(env, c.header.name, c.methods, st, m);
      } else {
        assert x in pre;
      }
    }
    SweepListCovered(env, c.header.interfaces, mid);
  }

  /** `path` starts at one of `roots` and follows super-interface names: every element but the
      last is an interface the classpath knows and the bootclasspath does not, and names the
      next element among its super-interfaces; no element is in `excluded`. */
  ghost predicate InterfacePath(env: Env, roots: seq<string>, excluded: set<string>, path: seq<string>) {
    && |path| > 0
    && path[0] in roots
    && (forall i | 0 <= i < |path| :: path[i] !in excluded)
    && (forall i | 0 <= i < |path| - 1 ::
          path[i] in env.classpath && path[i] !in env.bootclasspath
          && path[i + 1] in env.classpath[path[i]].header.interfaces)
  }

  lemma InterfacePathCons(env: Env, n: string, roots: seq<string>, excluded: set<string>, path: seq<string>)
    requires n in roots && n in env.classpath && n !in env.bootclasspath && n !in excluded
    requires InterfacePath(env, env.classpath[n].header.interfaces, excluded, path)
    ensures InterfacePath(env, roots, excluded, [n] + path)
  {
    var p := [n] + path;
    forall i | 0 <= i < |p|
      ensures p[i] !in excluded
    {
      if i > 0 {
        assert p[i] == path[i - 1];
      }
    }
    forall i | 0 <= i < |p| - 1
      ensures p[i] in env.classpath && p[i] !in env.bootclasspath
      ensures p[i + 1] in env.classpath[p[i]].header.interfaces
    {
      if i > 0 {
        assert p[i] == path[i - 1] && p[i + 1] == path[i];
      }
    }
  }

  lemma InterfacePathWiden(env: Env, roots: seq<string>, roots': seq<string>, excluded: set<string>, excluded': set<string>, path: seq<string>)
    requires InterfacePath(env, roots, excluded, path)
    requires path[0] in roots' && excluded' <= excluded
    ensures InterfacePath(env, roots', excluded', path)
  {
  }

  /** The sweep is closed under super-interfaces: every super-interface named by an interface
      it enters ends up seen. */
  lemma {:induction false} SweepListClosed(env: Env, ifaces: seq<string>, st: SweepState)
    requires SweepList(env, ifaces, st).Ok?
    ensures var r := SweepList(env, ifaces, st).value;
            forall i | |st.swept| <= i < |r.swept| && r.swept[i] in env.classpath ::
              forall k | k in env.classpath[r.swept[i]].header.interfaces :: k in r.seen
    decreases |env.classpath.Keys - st.seen|, 0, |ifaces|
  {
    var r := SweepList(env, ifaces, st).value;
    if ifaces != [] {
      var n := ifaces[0];
      var rest := ifaces[1..];
      if n in st.seen {
        SweepListClosed(env, rest, st);
      } else {
        var marked := st.(seen := st.seen + {n});
        MarkNotLarger(env.classpath.Keys, st.seen, n);
        if n in env.classpath && n !in env.bootclasspath {
          MarkShrinks(env.classpath.Keys, st.seen, n);
          var entered := marked.(swept := marked.swept + [n]);
          var next := SweepInterface(env, env.classpath[n], entered).value;
          SweepInterfaceSeen(env, env.classpath[n], entered);
          SweepInterfaceClosed(env, env.classpath[n], entered);
          DifferenceAntitone(env.classpath.Keys, marked.seen, next.seen);
          SweepListClosed(env, rest, next);
          forall i, k | |st.swept| <= i < |next.swept| && r.swept[i] in env.classpath
                        && k in env.classpath[r.swept[i]].header.interfaces
            ensures k in r.seen
          {
            assert r.swept[i] == next.swept[i];
            if i == |st.swept| {
              assert next.swept[i] == entered.swept[i] == n;
            }
          }
        } else {
          SweepListClosed(env, rest, marked);
        }
      }
    }
  }

  /** The same for the sweep of one interface. */
  lemma {:induction false} SweepInterfaceClosed(env: Env, c: ClassFile, st: SweepState)
    requires SweepInterface(env, c, st).Ok?
    ensures var r := SweepInterface(env, c, st).value;
            forall i | |st.swept| <= i < |r.swept| && r.swept[i] in env.classpath ::
              forall k | k in env.classpath[r.swept[i]].header.interfaces :: k in r.seen
    decreases |env.classpath.Keys - st.seen|, 1, 0
  {
    SweepListClosed(env, c.header.interfaces, StubDefaults(env, c.header.name, c.methods, st));
  }

  /** Completeness at the end of a participating class: every implemented interface ends up
      seen; every interface seen on the way that no superclass implements directly, that the
      classpath knows and the bootclasspath does not, is swept; the super-interfaces of every
      swept interface end up seen; and every default method of a swept interface is declared,
      inherited or stubbed. */
  lemma EndOfClassComplete(env: Env, superName: Option<string>, ifaces: seq<string>, st: SweepState)
    requires EndOfClass(env, superName, ifaces, st).Ok?
    requires Covered(env, st.swept, st.methods)
    ensures SuperChain(env, superName, {}).Ok?
    ensures st.out <= EndOfClass(env, superName, ifaces, st).value.out
    ensures var chain := SuperChain(env, superName, {}).value;
            var r := EndOfClass(env, superName, ifaces, st).value;
            var stubs := r.out[|st.out|..];
            && (forall n | n in ifaces :: n in r.seen)
            && (forall n | n in r.seen && n !in st.seen && n !in InheritedInterfaces(chain)
                           && n in env.classpath && n !in env.bootclasspath :: n in r.swept)
            && (forall i | |st.swept| <= i < |r.swept| && r.swept[i] in env.classpath ::
                  forall k | k in env.classpath[r.swept[i]].header.interfaces :: k in r.seen)
            && (forall n, m | n in r.swept && n in env.classpath && m in env.classpath[n].methods && IsDefaultMethod(m) ::
                  SigOf(m) in st.methods + InheritedSigs(chain) + StubSigs(stubs))
  {
    var chain := SuperChain(env, superName, {}).value;
    var start := st.(methods := st.methods + InheritedSigs(chain), seen := st.seen + InheritedInterfaces(chain));
    SweepListExtends(env, ifaces, start);
    SweepListSeen(env, ifaces, start);
    SweepListClosed(env, ifaces, start);
    SweepListCovered(env, ifaces, start);
  }

  /** The last element of an interface path out of `roots` is seen, given that the roots are
      seen, that seen names outside `excluded` on the classpath only are swept, and that the
      super-interfaces of swept interfaces are seen. */
  lemma {:induction false} InterfacePathSeen(env: Env, roots: seq<string>, excluded: set<string>,
                                             seen: set<string>, swept: seq<string>, path: seq<string>)
    requires InterfacePath(env, roots, excluded, path)
    requires forall n | n in roots :: n in seen
    requires forall n | n in seen && n !in excluded && n in env.classpath && n !in env.bootclasspath :: n in swept
    requires forall i | 0 <= i < |swept| && swept[i] in env.classpath ::
               forall k | k in env.classpath[swept[i]].header.interfaces :: k in seen
    ensures path[|path| - 1] in seen
    decreases |path|
  {
    if |path| > 1 {
      var front := path[..|path| - 1];
      assert InterfacePath(env, roots, excluded, front);
      InterfacePathSeen(env, roots, excluded, seen, swept, front);
      var x := path[|path| - 2];
      assert x == front[|front| - 1];
      var i :| 0 <= i < |swept| && swept[i] == x;
    }
  }

  /** A default method of an implemented interface that no superclass implements directly,
      found on the classpath and not on the bootclasspath, is declared by the class, inherited
      from a superclass, or stubbed. */
  lemma FixClassStubsComplete(env: Env, h: ClassHeader, ms: seq<MethodDecl>)
    requires FixClass(env, h, ms).Ok?
    requires Participates(IsSet(h.access, ACC_INTERFACE), h.interfaces)
    ensures SuperChain(env, h.superName, {}).Ok?
    ensures 1 + |ms| < |FixClass(env, h, ms).value|
    ensures var chain := SuperChain(env, h.superName, {}).value;
            var out := FixClass(env, h, ms).value;
            var stubs := out[1 + |ms|..|out| - 1];
            forall n, m | n in h.interfaces && n !in InheritedInterfaces(chain)
                          && n in env.classpath && n !in env.bootclasspath
                          && m in env.classpath[n].methods && IsDefaultMethod(m) ::
              SigOf(m) in InstanceSigs(ms) + InheritedSigs(chain) + StubSigs(stubs)
  {
    FixClassAddsOnly(env, h, ms);
    var forwarded := [Header(h)] + Forwarded(ms);
    var st := SweepState(InstanceSigs(ms), {}, forwarded, []);
    EndOfClassComplete(env, h.superName, h.interfaces, st);
    var r := EndOfClass(env, h.superName, h.interfaces, st).value;
    var out := FixClass(env, h, ms).value;
    assert out == r.out + [End];
    assert out[1 + |ms|..|out| - 1] == r.out[|forwarded|..];
  }

  /** The same for an interface reached from an implemented one through super-interfaces, none
      of them implemented directly by a superclass: a diamond's apex included. With
      `FixClassStubsAreNew`, every such default whose signature is neither declared nor
      inherited is stubbed exactly once. */
  lemma FixClassStubsReachable(env: Env, h: ClassHeader, ms: seq<MethodDecl>, path: seq<string>)
    requires FixClass(env, h, ms).Ok?
    requires Participates(IsSet(h.access, ACC_INTERFACE), h.interfaces)
    requires SuperChain(env, h.superName, {}).Ok?
    requires InterfacePath(env, h.interfaces, InheritedInterfaces(SuperChain(env, h.superName, {}).value), path)
    ensures 1 + |ms| < |FixClass(env, h, ms).value|
    ensures var chain := SuperChain(env, h.superName, {}).value;
            var out := FixClass(env, h, ms).value;
            var stubs := out[1 + |ms|..|out| - 1];
            var last := path[|path| - 1];
            last in env.classpath && last !in env.bootclasspath ==>
              forall m | m in env.classpath[last].methods && IsDefaultMethod(m) ::
                SigOf(m) in InstanceSigs(ms) + InheritedSigs(chain) + StubSigs(stubs)
  {
    FixClassAddsOnly(env, h, ms);
    var chain := SuperChain(env, h.superName, {}).value;
    var forwarded := [Header(h)] + Forwarded(ms);
    var st := SweepState(InstanceSigs(ms), {}, forwarded, []);
    EndOfClassComplete(env, h.superName, h.interfaces, st);
    var r := EndOfClass(env, h.superName, h.interfaces, st).value;
    InterfacePathSeen(env, h.interfaces, InheritedInterfaces(chain), r.seen, r.swept, path);
    var out := FixClass(env, h, ms).value;
    assert out == r.out + [End];
    assert out[1 + |ms|..|out| - 1] == r.out[|forwarded|..];
  }

  // ---------------------------------------------------------------- failures

  /** `e` reports the class the classpath holds under `n`, which the bootclasspath does not
      know, as lacking the interface flag. */
  ghost predicate LacksInterfaceFlag(env: Env, n: string, e: Error) {
    && n in env.classpath && n !in env.bootclasspath
    && !IsSet(env.classpath[n].header.access, ACC_INTERFACE)
    && e == NotAnInterface(env.classpath[n].header.name)
  }

  /** `e` reports a class without the interface flag at the end of an interface path out of
      `roots` that avoids `excluded`: a class the sweep enters. */
  ghost predicate NonInterfaceReached(env: Env, roots: seq<string>, excluded: set<string>, e: Error) {
    exists path :: InterfacePath(env, roots, excluded, path) && LacksInterfaceFlag(env, path[|path| - 1], e)
  }

  /** The sweep fails only on a class it enters, reached from the listed names through
      super-interfaces none of which was seen before, that lacks the interface flag: an
      interface neither source knows, or one the bootclasspath knows, never makes it fail. */
  lemma {:induction false} SweepListFails(env: Env, ifaces: seq<string>, st: SweepState)
    requires SweepList(env, ifaces, st).Err?
    ensures NonInterfaceReached(env, ifaces, st.seen, SweepList(env, ifaces, st).error)
    decreases |env.classpath.Keys - st.seen|, 0, |ifaces|
  {
    var e := SweepList(env, ifaces, st).error;
    var n := ifaces[0];
    var rest := ifaces[1..];
    var marked := st.(seen := st.seen + {n});
    var later: set<string>;
    if n in st.seen {
      SweepListFails(env, rest, st);
      later := st.seen;
    } else {
      MarkNotLarger(env.classpath.Keys, st.seen, n);
      if n in env.classpath && n !in env.bootclasspath {
        MarkShrinks(env.classpath.Keys, st.seen, n);
        var entered := marked.(swept := marked.swept + [n]);
        var c := env.classpath[n];
        match SweepInterface(env, c, entered)
        case Err(_) =>
          SweepInterfaceFails(env, c, entered);
          if !IsSet(c.header.access, ACC_INTERFACE) {
            assert InterfacePath(env, ifaces, st.seen, [n]) && LacksInterfaceFlag(env, [n][0], e);
          } else {
            var path :| InterfacePath(env, c.header.interfaces, entered.seen, path)
                        && LacksInterfaceFlag(env, path[|path| - 1], e);
            InterfacePathWiden(env, c.header.interfaces, c.header.interfaces, entered.seen, st.seen, path);
            InterfacePathCons(env, n, ifaces, st.seen, path);
            assert ([n] + path)[|[n] + path| - 1] == path[|path| - 1];
          }
          return;
        case Ok(next) =>
          DifferenceAntitone(env.classpath.Keys, marked.seen, next.seen);
          SweepListFails(env, rest, next);
          later := next.seen;
      } else {
        SweepListFails(env, rest, marked);
        later := marked.seen;
      }
    }
    var path :| InterfacePath(env, rest, later, path) && LacksInterfaceFlag(env, path[|path| - 1], e);
    InterfacePathWiden(env, rest, ifaces, later, st.seen, path);
  }

  /** The sweep of one class fails at once when it lacks the interface flag, and otherwise only
      on a class reached through its super-interfaces as `SweepListFails` states. */
  lemma {:induction false} SweepInterfaceFails(env: Env, c: ClassFile, st: SweepState)
    requires SweepInterface(env, c, st).Err?
    ensures var e := SweepInterface(env, c, st).error;
            && (!IsSet(c.header.access, ACC_INTERFACE) ==> e == NotAnInterface(c.header.name))
            && (IsSet(c.header.access, ACC_INTERFACE) ==> NonInterfaceReached(env, c.header.interfaces, st.seen, e))
    decreases |env.classpath.Keys - st.seen|, 1, 0
  {
    if IsSet(c.header.access, ACC_INTERFACE) {
      SweepListFails(env, c.header.interfaces, StubDefaults(env, c.header.name, c.methods, st));
    }
  }

  /** A fix fails only for a missing super name on a class other than the root, for a failure
      of the superclass walk, or for a class the sweep enters, reached from the implemented
      interfaces through ones no superclass implements directly, that lacks the interface flag. */
  lemma FixClassFailures(env: Env, h: ClassHeader, ms: seq<MethodDecl>)
    requires FixClass(env, h, ms).Err?
    ensures var e := FixClass(env, h, ms).error;
            || (h.superName.None? && h.name != ObjectName && e == MissingSuperclass(h.name))
            || (SuperChain(env, h.superName, {}).Err? && e == SuperChain(env, h.superName, {}).error)
            || (SuperChain(env, h.superName, {}).Ok?
                && NonInterfaceReached(env, h.interfaces, InheritedInterfaces(SuperChain(env, h.superName, {}).value), e))
  {
    if !(h.superName.None? && h.name != ObjectName) && SuperChain(env, h.superName, {}).Ok? {
      var chain := SuperChain(env, h.superName, {}).value;
      var st := SweepState(InstanceSigs(ms), {}, [Header(h)] + Forwarded(ms), []);
      var start := st.(methods := st.methods + InheritedSigs(chain), seen := st.seen + InheritedInterfaces(chain));
      SweepListFails(env, h.interfaces, start);
      assert start.seen == InheritedInterfaces(chain);
    }
  }

  // ---------------------------------------------------------------- superclass walk

  /** A walk that succeeds lists the superclasses in order: the first is what `superName`
      resolves to (bootclasspath first), each next one is what the previous one's super name
      resolves to, none is an interface, and the last has no super name. */
  lemma {:induction false} SuperChainShape(env: Env, superName: Option<string>, walked: set<string>)
    requires SuperChain(env, superName, walked).Ok?
    ensures var chain := SuperChain(env, superName, walked).value;
            && (superName.None? <==> chain == [])
            && (superName.Some? ==> ResolveSuper(env, superName.value) == Some(chain[0]))
            && (forall i | 0 <= i < |chain| :: NoneSet(chain[i].header.access, ACC_INTERFACE))
            && (forall i | 0 <= i < |chain| - 1 ::
                  chain[i].header.superName.Some?
                  && ResolveSuper(env, chain[i].header.superName.value) == Some(chain[i + 1]))
            && (chain != [] ==> chain[|chain| - 1].header.superName.None?)
    decreases |KnownNames(env) - walked|
  {
    if superName.Some? {
      var n := superName.value;
      var c := ResolveSuper(env, n).value;
      MarkShrinks(KnownNames(env), walked, n);
      SuperChainShape(env, c.header.superName, walked + {n});
      var rest := SuperChain(env, c.header.superName, walked + {n}).value;
      var chain := [c] + rest;
      forall i | 0 <= i < |chain| - 1
        ensures chain[i].header.superName.Some?
        ensures ResolveSuper(env, chain[i].header.superName.value) == Some(chain[i + 1])
      {
        if i > 0 {
          assert chain[i] == rest[i - 1] && chain[i + 1] == rest[i];
        }
      }
    }
  }

  /** Starting from `superName`, the walk passes the classes named `keys` in order, each found
      and not an interface, and then looks up `next`. */
  ghost predicate Reaches(env: Env, superName: Option<string>, keys: seq<string>, next: string)
    decreases |keys|
  {
    if keys == [] then superName == Some(next)
    else
      && superName == Some(keys[0])
      && ResolveSuper(env, keys[0]).Some?
      && NoneSet(ResolveSuper(env, keys[0]).value.header.access, ACC_INTERFACE)
      && Reaches(env, ResolveSuper(env, keys[0]).value.header.superName, keys[1..], next)
  }

  lemma ReachesStep(env: Env, n: string, keys: seq<string>, next: string)
    requires ResolveSuper(env, n).Some? && NoneSet(ResolveSuper(env, n).value.header.access, ACC_INTERFACE)
    requires Reaches(env, ResolveSuper(env, n).value.header.superName, keys, next)
    ensures Reaches(env, Some(n), [n] + keys, next)
  {
    assert ([n] + keys)[1..] == keys;
  }

  /** A walk fails only for a reason the source fails on, at a name the walk reaches: a
      superclass on neither lookup source, a superclass that is an interface, or a name met
      again, either among those walked before or among those this walk passed (where the
      source never finishes). */
  lemma {:induction false} SuperChainFailures(env: Env, superName: Option<string>, walked: set<string>)
    requires SuperChain(env, superName, walked).Err?
    ensures match SuperChain(env, superName, walked).error
            case SuperclassNotFound(n) =>
              && n !in env.bootclasspath && n !in env.classpath
              && exists keys :: Reaches(env, superName, keys, n)
            case SuperclassIsInterface(n) =>
              exists keys, k :: Reaches(env, superName, keys, k)
                && ResolveSuper(env, k).Some? && ResolveSuper(env, k).value.header.name == n
                && !NoneSet(ResolveSuper(env, k).value.header.access, ACC_INTERFACE)
            case CyclicSuperclassChain(n) =>
              exists keys :: Reaches(env, superName, keys, n) && (n in walked || n in keys)
            case _ => false
    decreases |KnownNames(env) - walked|
  {
    var n := superName.value;
    assert Reaches(env, superName, [], n);
    if n !in walked {
      match ResolveSuper(env, n)
      case None =>
      case Some(c) =>
        if NoneSet(c.header.access, ACC_INTERFACE) {
          MarkShrinks(KnownNames(env), walked, n);
          var up := c.header.superName;
          SuperChainFailures(env, up, walked + {n});
          match SuperChain(env, up, walked + {n}).error
          case SuperclassNotFound(x) =>
            var keys :| Reaches(env, up, keys, x);
            ReachesStep(env, n, keys, x);
          case SuperclassIsInterface(x) =>
            var keys, k :| Reaches(env, up, keys, k)
              && ResolveSuper(env, k).Some? && ResolveSuper(env, k).value.header.name == x
              && !NoneSet(ResolveSuper(env, k).value.header.access, ACC_INTERFACE);
            ReachesStep(env, n, keys, k);
          case CyclicSuperclassChain(x) =>
            var keys :| Reaches(env, up, keys, x) && (x in walked + {n} || x in keys);
            ReachesStep(env, n, keys, x);
            assert x in walked || x in [n] + keys;
        }
    }
  }
}
