/**
 What a synchronisation and a teardown promise, proved about the functions
 of module Reconciliation: which widgets are unmounted and how often, which
 containers are cleared or removed, which instances survive, the shape of
 the recorded list, and that a repeated synchronisation changes nothing.
 */
module ReconcileProperties {
  import opened Lifecycle
  import opened Reconciliation

  // ---------------------------------------------------------------------
  // The index
  // ---------------------------------------------------------------------

  /** Under unique widget instances, an instance is filed under one container only. */
  lemma IndexInjective(existing: seq<MountedComponent>, e: MountedComponent)
    requires UniqueComponents(existing) && e in existing
    ensures forall c :: c in IndexByContainer(existing) && IndexByContainer(existing)[c].component == e.component ==>
      IndexByContainer(existing)[c] == e && c == e.container
  {
    IndexMembers(existing);
  }

  // ---------------------------------------------------------------------
  // The container loop
  // ---------------------------------------------------------------------

  /** Running the loop over two lists in turn is running it over their concatenation. */
  lemma {:induction false} MountPassAppend(index: map<Container, MountedComponent>, a: seq<Container>,
                                           b: seq<Container>, file: OpenFile, settable: Instance -> bool, next: nat)
    decreases |b|
    ensures var pa := MountPass(index, a, file, settable, next);
      var pb := MountPass(index, b, file, settable, pa.next);
      MountPass(index, a + b, file, settable, next) == Pass(pa.mounted + pb.mounted, pa.events + pb.events, pb.next)
  {
    if b == [] {
      assert a + b == a;
    } else {
      var b', c := b[..|b| - 1], b[|b| - 1];
      MountPassAppend(index, a, b', file, settable, next);
      var pa := MountPass(index, a, file, settable, next);
      var pb' := MountPass(index, b', file, settable, pa.next);
      var s := Step(index, c, file, settable, pb'.next);
      assert MountPass(index, b, file, settable, pa.next) == Pass(pb'.mounted + s.mounted, pb'.events + s.events, s.next);
      var ab := a + b;
      assert ab[..|ab| - 1] == a + b' && ab[|ab| - 1] == c;
      var pab' := MountPass(index, a + b', file, settable, next);
      assert pab' == Pass(pa.mounted + pb'.mounted, pa.events + pb'.events, pb'.next);
      assert MountPass(index, ab, file, settable, next) == Pass(pab'.mounted + s.mounted, pab'.events + s.events, s.next);
      ConcatAssoc(pa.mounted, pb'.mounted, s.mounted);
      ConcatAssoc(pa.events, pb'.events, s.events);
    }
  }

  /** The container loop never removes a container. */
  lemma {:induction false} MountPassNeverRemoves(index: map<Container, MountedComponent>, containers: seq<Container>,
                                                 file: OpenFile, settable: Instance -> bool, next: nat)
    decreases |containers|
    ensures forall ev :: ev in MountPass(index, containers, file, settable, next).events ==> !ev.RemoveContainer?
  {
    if containers != [] {
      MountPassNeverRemoves(index, containers[..|containers| - 1], file, settable, next);
    }
  }

  /** One iteration unmounts the widget filed under e's container only for that container, on a file change. */
  lemma StepUnmounts(index: map<Container, MountedComponent>, c: Container, file: OpenFile,
                     settable: Instance -> bool, next: nat, e: MountedComponent)
    requires e.container in index && index[e.container] == e
    requires forall d :: d in index && index[d].component == e.component ==> d == e.container
    ensures multiset(Step(index, c, file, settable, next).events)[Unmount(e.component)] ==
      if c == e.container && ShouldRemount(e, file) then 1 else 0
  {
    var s := Step(index, c, file, settable, next);
    if c in index && ShouldRemount(index[c], file) {
      assert s.events == [Unmount(index[c].component), ClearContainer(index[c].container), Mount(c, file.ref, Instance(next))];
      assert multiset(s.events)[Unmount(e.component)] == if index[c].component == e.component then 1 else 0;
    } else {
      assert Unmount(e.component) !in s.events;
    }
  }

  /**
   In the container loop, the widget filed under e's container is unmounted
   once exactly when its container is rediscovered and its file changed, and
   never otherwise.
   */
  lemma {:induction false} MountPassUnmounts(index: map<Container, MountedComponent>, containers: seq<Container>,
                                             file: OpenFile, settable: Instance -> bool, next: nat, e: MountedComponent)
    requires Distinct(containers)
    requires e.container in index && index[e.container] == e
    requires forall c :: c in index && index[c].component == e.component ==> c == e.container
    decreases |containers|
    ensures multiset(MountPass(index, containers, file, settable, next).events)[Unmount(e.component)] ==
      if e.container in containers && ShouldRemount(e, file) then 1 else 0
  {
    if containers != [] {
      var prefix, c := containers[..|containers| - 1], containers[|containers| - 1];
      DistinctLast(containers, e.container);
      MountPassUnmounts(index, prefix, file, settable, next, e);
      var done := MountPass(index, prefix, file, settable, next);
      StepUnmounts(index, c, file, settable, done.next, e);
      MountPassLast(index, containers, file, settable, next);
    }
  }

  /** When every discovered container keeps its widget, the loop mounts and unmounts nothing. */
  lemma {:induction false} MountPassKeepsAll(index: map<Container, MountedComponent>, containers: seq<Container>,
                                             file: OpenFile, settable: Instance -> bool, next: nat)
    requires forall i :: 0 <= i < |containers| ==> Kept(index, containers[i], file)
    decreases |containers|
    ensures var p := MountPass(index, containers, file, settable, next);
      p.next == next && forall ev :: ev in p.events ==> ev.SetFileProp?
  {
    if containers != [] {
      var prefix := containers[..|containers| - 1];
      assert forall i :: 0 <= i < |prefix| ==> prefix[i] == containers[i];
      MountPassKeepsAll(index, prefix, file, settable, next);
    }
  }

  /** Counting mounts distributes over concatenation. */
  lemma {:induction false} MountsIntoAppend(a: seq<Event>, b: seq<Event>, c: Container)
    decreases |b|
    ensures MountsInto(a + b, c) == MountsInto(a, c) + MountsInto(b, c)
  {
    if b == [] {
      assert a + b == a;
    } else {
      var b' := b[..|b| - 1];
      MountsIntoAppend(a, b', c);
      assert (a + b)[..|a + b| - 1] == a + b';
    }
  }

  /** The mounts into c of a single effect. */
  lemma MountsIntoSingle(ev: Event, c: Container)
    ensures MountsInto([ev], c) == if ev.Mount? && ev.target == c then 1 else 0
  {
    assert [ev][..0] == [];
  }

  /** One iteration mounts into c once exactly when it is c's iteration and c's widget is not kept. */
  lemma StepMounts(index: map<Container, MountedComponent>, d: Container, file: OpenFile,
                   settable: Instance -> bool, next: nat, c: Container)
    ensures MountsInto(Step(index, d, file, settable, next).events, c) ==
      if d == c && !Kept(index, c, file) then 1 else 0
  {
    var mount := Mount(d, file.ref, Instance(next));
    MountsIntoSingle(mount, c);
    if d in index {
      var m := index[d];
      if ShouldRemount(m, file) {
        MountsIntoSingle(Unmount(m.component), c);
        MountsIntoSingle(ClearContainer(m.container), c);
        MountsIntoAppend([Unmount(m.component)], [ClearContainer(m.container)], c);
        MountsIntoAppend(UnmountEvents(m, false), [mount], c);
      } else if settable(m.component) {
        MountsIntoSingle(SetFileProp(m.component, file.ref), c);
      }
    }
  }

  /**
   Over distinct containers, the container loop mounts into container c
   exactly once when c is discovered and its widget is not kept (fresh or
   remounted), and never otherwise: no container gets two widgets.
   */
  lemma {:induction false} MountPassMountsOnce(index: map<Container, MountedComponent>, containers: seq<Container>,
                                               file: OpenFile, settable: Instance -> bool, next: nat, c: Container)
    requires Distinct(containers)
    decreases |containers|
    ensures MountsInto(MountPass(index, containers, file, settable, next).events, c) ==
      if c in containers && !Kept(index, c, file) then 1 else 0
  {
    if containers != [] {
      var prefix, d := containers[..|containers| - 1], containers[|containers| - 1];
      DistinctLast(containers, c);
      MountPassMountsOnce(index, prefix, file, settable, next, c);
      var done := MountPass(index, prefix, file, settable, next);
      StepMounts(index, d, file, settable, done.next, c);
      MountPassLast(index, containers, file, settable, next);
      MountsIntoAppend(done.events, Step(index, d, file, settable, done.next).events, c);
    }
  }

  /** A kept widget that offers `$set` is passed the file. */
  lemma {:induction false} MountPassRebinds(index: map<Container, MountedComponent>, containers: seq<Container>,
                                            file: OpenFile, settable: Instance -> bool, next: nat)
    decreases |containers|
    ensures forall i :: 0 <= i < |containers| && Kept(index, containers[i], file) && settable(index[containers[i]].component) ==>
      SetFileProp(index[containers[i]].component, file.ref) in MountPass(index, containers, file, settable, next).events
  {
    if containers != [] {
      var prefix := containers[..|containers| - 1];
      MountPassRebinds(index, prefix, file, settable, next);
      var done := MountPass(index, prefix, file, settable, next);
      MountPassLast(index, containers, file, settable, next);
      assert forall i :: 0 <= i < |prefix| ==> prefix[i] == containers[i];
    }
  }

  // ---------------------------------------------------------------------
  // The stale-entry loop and whole-view teardown
  // ---------------------------------------------------------------------

  /** An unmount or removal in the stale-entry loop comes from an existing entry whose container was not reused. */
  lemma {:induction false} StaleTeardownOrigin(existing: seq<MountedComponent>, reused: set<Container>)
    decreases |existing|
    ensures forall x :: Unmount(x) in StaleTeardown(existing, reused) ==>
      exists e :: e in existing && e.component == x && e.container !in reused
    ensures forall c :: RemoveContainer(c) in StaleTeardown(existing, reused) ==>
      exists e :: e in existing && e.container == c && c !in reused
    ensures forall ev :: ev in StaleTeardown(existing, reused) ==> ev.Unmount? || ev.RemoveContainer?
  {
    if existing != [] {
      var prefix := existing[..|existing| - 1];
      StaleTeardownOrigin(prefix, reused);
      assert forall e :: e in prefix ==> e in existing;
    }
  }

  /**
   In a well-formed list, the stale-entry loop unmounts an entry's widget and
   removes its container once each if that container was not reused, and
   never otherwise.
   */
  lemma {:induction false} StaleTeardownOnce(existing: seq<MountedComponent>, reused: set<Container>, e: MountedComponent)
    requires WellFormed(existing) && e in existing
    decreases |existing|
    ensures multiset(StaleTeardown(existing, reused))[Unmount(e.component)] == if e.container in reused then 0 else 1
    ensures multiset(StaleTeardown(existing, reused))[RemoveContainer(e.container)] == if e.container in reused then 0 else 1
  {
    var prefix, last := existing[..|existing| - 1], existing[|existing| - 1];
    assert existing == prefix + [last];
    assert WellFormed(prefix);
    var done := StaleTeardown(prefix, reused);
    var tail := if last.container in reused then [] else UnmountEvents(last, true);
    assert StaleTeardown(existing, reused) == done + tail;
    assert multiset(done + tail) == multiset(done) + multiset(tail);
    if e == last {
      assert forall i :: 0 <= i < |prefix| ==> prefix[i].component != e.component && prefix[i].container != e.container;
      StaleTeardownAbsent(prefix, reused, e);
    } else {
      assert e in prefix;
      assert last.component != e.component && last.container != e.container;
      StaleTeardownOnce(prefix, reused, e);
    }
  }

  /** The stale-entry loop mentions no widget and no container that is not in the list. */
  lemma {:induction false} StaleTeardownAbsent(existing: seq<MountedComponent>, reused: set<Container>, e: MountedComponent)
    requires forall i :: 0 <= i < |existing| ==> existing[i].component != e.component && existing[i].container != e.container
    decreases |existing|
    ensures Unmount(e.component) !in StaleTeardown(existing, reused)
    ensures RemoveContainer(e.container) !in StaleTeardown(existing, reused)
  {
    if existing != [] {
      StaleTeardownAbsent(existing[..|existing| - 1], reused, e);
    }
  }

  /** The stale-entry loop mounts nothing. */
  lemma {:induction false} StaleTeardownMountsNothing(existing: seq<MountedComponent>, reused: set<Container>, c: Container)
    decreases |existing|
    ensures MountsInto(StaleTeardown(existing, reused), c) == 0
  {
    if existing != [] {
      var prefix, last := existing[..|existing| - 1], existing[|existing| - 1];
      StaleTeardownMountsNothing(prefix, reused, c);
      if last.container !in reused {
        MountsIntoSingle(Unmount(last.component), c);
        MountsIntoSingle(RemoveContainer(last.container), c);
        MountsIntoAppend([Unmount(last.component)], [RemoveContainer(last.container)], c);
        assert UnmountEvents(last, true) == [Unmount(last.component)] + [RemoveContainer(last.container)];
        MountsIntoAppend(StaleTeardown(prefix, reused), UnmountEvents(last, true), c);
      } else {
        assert StaleTeardown(existing, reused) == StaleTeardown(prefix, reused) + [];
        assert StaleTeardown(prefix, reused) + [] == StaleTeardown(prefix, reused);
      }
    }
  }

  /** The stale-entry loop with nothing reused is the teardown of the whole list. */
  lemma {:induction false} StaleTeardownOfNothing(existing: seq<MountedComponent>)
    decreases |existing|
    ensures StaleTeardown(existing, {}) == TeardownEvents(existing)
  {
    if existing != [] {
      StaleTeardownOfNothing(existing[..|existing| - 1]);
    }
  }

  /** The stale-entry loop does nothing when every container was reused. */
  lemma {:induction false} StaleTeardownOfAllReused(existing: seq<MountedComponent>, reused: set<Container>)
    requires forall i :: 0 <= i < |existing| ==> existing[i].container in reused
    decreases |existing|
    ensures StaleTeardown(existing, reused) == []
  {
    if existing != [] {
      var prefix := existing[..|existing| - 1];
      assert forall i :: 0 <= i < |prefix| ==> prefix[i] == existing[i];
      StaleTeardownOfAllReused(prefix, reused);
    }
  }

  /**
   Tearing down a view unmounts every tracked widget exactly once and removes
   every container exactly once, and does nothing else.
   */
  lemma TeardownUnmountsEach(list: seq<MountedComponent>)
    requires WellFormed(list)
    ensures forall e :: e in list ==>
      multiset(TeardownEvents(list))[Unmount(e.component)] == 1 &&
      multiset(TeardownEvents(list))[RemoveContainer(e.container)] == 1
    ensures forall ev :: ev in TeardownEvents(list) ==> ev.Unmount? || ev.RemoveContainer?
    ensures forall x :: Unmount(x) in TeardownEvents(list) ==> exists e :: e in list && e.component == x
    ensures forall c :: RemoveContainer(c) in TeardownEvents(list) ==> exists e :: e in list && e.container == c
  {
    StaleTeardownOfNothing(list);
    StaleTeardownOrigin(list, {});
    forall e | e in list
      ensures multiset(TeardownEvents(list))[Unmount(e.component)] == 1
      ensures multiset(TeardownEvents(list))[RemoveContainer(e.container)] == 1
    {
      StaleTeardownOnce(list, {}, e);
    }
  }

  // ---------------------------------------------------------------------
  // A whole synchronisation
  // ---------------------------------------------------------------------

  /** The containers reused after the loop are exactly the discovered ones. */
  lemma ReusedIsDiscovered(existing: seq<MountedComponent>, containers: seq<Container>, file: OpenFile,
                           settable: Instance -> bool, next: nat)
    ensures forall c :: c in Reused(Reconcile(existing, containers, file, settable, next).mounted) <==> c in containers
  {
    var r := Reconcile(existing, containers, file, settable, next);
    ReconcileBinds(existing, containers, file, settable, next);
    forall c | c in containers ensures c in Reused(r.mounted) {
      var i :| 0 <= i < |containers| && containers[i] == c;
      assert r.mounted[i] in r.mounted;
    }
  }

  /**
   When a view has no containers any longer, nothing is recorded (so the view
   is untracked), no instance is mounted, and every existing widget is
   unmounted and its container removed, in list order.
   */
  lemma NoContainersTearsDown(existing: seq<MountedComponent>, file: OpenFile, settable: Instance -> bool, next: nat)
    ensures var r := Reconcile(existing, [], file, settable, next);
      r.mounted == [] && r.next == next && r.events == TeardownEvents(existing)
  {
    var r := Reconcile(existing, [], file, settable, next);
    assert Reused(r.mounted) == {};
    StaleTeardownOfNothing(existing);
  }

  /**
   The fate of one existing widget when its view is synchronised against
   distinct containers: it is unmounted exactly once unless its container is
   rediscovered with the same file object and path, in which case it is kept
   as it was; its container is removed (once) exactly when it was not
   rediscovered; a rediscovered container whose file changed gets a fresh
   instance.
   */
  lemma ReconcileRetires(existing: seq<MountedComponent>, containers: seq<Container>, file: OpenFile,
                         settable: Instance -> bool, next: nat, e: MountedComponent)
    requires Distinct(containers) && WellFormed(existing) && e in existing
    ensures var r := Reconcile(existing, containers, file, settable, next);
      && multiset(r.events)[Unmount(e.component)] == (if e.container in containers && !ShouldRemount(e, file) then 0 else 1)
      && (e.container in containers ==> multiset(r.events)[RemoveContainer(e.container)] == 0)
      && (e.container !in containers ==> multiset(r.events)[RemoveContainer(e.container)] == 1)
      && (forall i :: 0 <= i < |containers| && containers[i] == e.container ==>
            if ShouldRemount(e, file) then next <= r.mounted[i].component.id else r.mounted[i] == e)
      && (e.container in containers ==> MountsInto(r.events, e.container) == if ShouldRemount(e, file) then 1 else 0)
  {
    var index := IndexByContainer(existing);
    var p := MountPass(index, containers, file, settable, next);
    var r := Reconcile(existing, containers, file, settable, next);
    IndexOfUnique(existing);
    IndexInjective(existing, e);
    assert index[e.container] == e;
    MountPassUnmounts(index, containers, file, settable, next, e);
    MountPassNeverRemoves(index, containers, file, settable, next);
    MountPassKept(index, containers, file, settable, next);
    MountPassFresh(index, containers, file, settable, next);
    ReusedIsDiscovered(existing, containers, file, settable, next);
    StaleTeardownOnce(existing, Reused(p.mounted), e);
    assert r.events == p.events + StaleTeardown(existing, Reused(p.mounted));
    assert RemoveContainer(e.container) !in p.events;
    ReconcileMountsOnce(existing, containers, file, settable, next, e.container);
  }

  /**
   A synchronisation against distinct containers mounts into container c
   exactly once when c is discovered and has no widget yet or its widget's
   file changed, and never otherwise; in particular a discovered container
   no existing entry uses gets exactly one widget.
   */
  lemma ReconcileMountsOnce(existing: seq<MountedComponent>, containers: seq<Container>, file: OpenFile,
                            settable: Instance -> bool, next: nat, c: Container)
    requires Distinct(containers)
    ensures MountsInto(Reconcile(existing, containers, file, settable, next).events, c) ==
      if c in containers && !Kept(IndexByContainer(existing), c, file) then 1 else 0
    ensures c in containers && (forall e :: e in existing ==> e.container != c) ==>
      MountsInto(Reconcile(existing, containers, file, settable, next).events, c) == 1
  {
    var index := IndexByContainer(existing);
    var p := MountPass(index, containers, file, settable, next);
    MountPassMountsOnce(index, containers, file, settable, next, c);
    StaleTeardownMountsNothing(existing, Reused(p.mounted), c);
    MountsIntoAppend(p.events, StaleTeardown(existing, Reused(p.mounted)), c);
    IndexMembers(existing);
  }

  /**
   On a file change, a rediscovered container's old widget is retired in
   place: its unmount, the clearing of the container and the mount of the
   new instance into that same container happen one right after the other.
   */
  lemma RemountInPlace(existing: seq<MountedComponent>, containers: seq<Container>, file: OpenFile,
                       settable: Instance -> bool, next: nat, e: MountedComponent, k: nat)
    requires UniqueContainers(existing) && e in existing
    requires k < |containers| && containers[k] == e.container && ShouldRemount(e, file)
    ensures var r := Reconcile(existing, containers, file, settable, next);
      exists pre, post :: r.events ==
        pre + [Unmount(e.component), ClearContainer(e.container), Mount(e.container, file.ref, r.mounted[k].component)] + post
  {
    var index := IndexByContainer(existing);
    IndexOfUnique(existing);
    var i :| 0 <= i < |existing| && existing[i] == e;
    assert index[e.container] == e;
    var p := MountPass(index, containers, file, settable, next);
    var pre, post := MountPassRemountBlock(index, containers, file, settable, next, k);
    var r := Reconcile(existing, containers, file, settable, next);
    var block := [Unmount(e.component), ClearContainer(e.container), Mount(e.container, file.ref, r.mounted[k].component)];
    ConcatAssoc(pre + block, post, StaleTeardown(existing, Reused(p.mounted)));
  }

  /** In the loop, the iteration for a remounted container k contributes one contiguous block. */
  lemma MountPassRemountBlock(index: map<Container, MountedComponent>, containers: seq<Container>, file: OpenFile,
                              settable: Instance -> bool, next: nat, k: nat)
    returns (pre: seq<Event>, post: seq<Event>)
    requires k < |containers| && containers[k] in index && ShouldRemount(index[containers[k]], file)
    ensures var p := MountPass(index, containers, file, settable, next);
      p.events == pre + [Unmount(index[containers[k]].component), ClearContainer(index[containers[k]].container),
                         Mount(containers[k], file.ref, p.mounted[k].component)] + post
  {
    MountPassSplit(index, containers, file, settable, next, k);
    var pa := MountPass(index, containers[..k], file, settable, next);
    var s := Step(index, containers[k], file, settable, pa.next);
    var p2 := MountPass(index, containers[k + 1..], file, settable, s.next);
    var p := MountPass(index, containers, file, settable, next);
    assert p.mounted[k] == s.mounted[0];
    pre, post := pa.events, p2.events;
  }

  /** The loop splits around the iteration for container k. */
  lemma MountPassSplit(index: map<Container, MountedComponent>, containers: seq<Container>, file: OpenFile,
                       settable: Instance -> bool, next: nat, k: nat)
    requires k < |containers|
    ensures var pa := MountPass(index, containers[..k], file, settable, next);
      var s := Step(index, containers[k], file, settable, pa.next);
      var p2 := MountPass(index, containers[k + 1..], file, settable, s.next);
      var p := MountPass(index, containers, file, settable, next);
      && p.mounted == pa.mounted + s.mounted + p2.mounted && |pa.mounted| == k
      && p.events == pa.events + s.events + p2.events
  {
    var a, b1, b2 := containers[..k], [containers[k]], containers[k + 1..];
    assert containers == a + (b1 + b2);
    MountPassAppend(index, a, b1 + b2, file, settable, next);
    var pa := MountPass(index, a, file, settable, next);
    MountPassAppend(index, b1, b2, file, settable, pa.next);
    SingleContainerPass(index, containers[k], file, settable, pa.next);
    var s := Step(index, containers[k], file, settable, pa.next);
    var p2 := MountPass(index, b2, file, settable, s.next);
    ConcatAssoc(pa.mounted, s.mounted, p2.mounted);
    ConcatAssoc(pa.events, s.events, p2.events);
  }

  /** Every instance a synchronisation records was handed out before its next fresh identity. */
  lemma ReconcileIdsBelow(existing: seq<MountedComponent>, containers: seq<Container>, file: OpenFile,
                          settable: Instance -> bool, next: nat)
    requires IdsBelow(existing, next)
    ensures var r := Reconcile(existing, containers, file, settable, next);
      IdsBelow(r.mounted, r.next)
  {
    var index := IndexByContainer(existing);
    IndexMembers(existing);
    MountPassKept(index, containers, file, settable, next);
    MountPassFresh(index, containers, file, settable, next);
  }

  /**
   Recording a list whose identities are below the new counter keeps the
   registry valid, whether the view is tracked again or dropped.
   */
  lemma StoreKeepsValid(registry: map<View, seq<MountedComponent>>, view: View, list: seq<MountedComponent>,
                        n0: nat, n: nat)
    requires RegistryValid(registry, n0) && n0 <= n && IdsBelow(list, n)
    ensures RegistryValid(Store(registry, view, list), n)
    ensures RegistryValid(registry - {view}, n)
  {
    var r := Store(registry, view, list);
    forall v | v in r
      ensures r[v] != [] && IdsBelow(r[v], n)
    {
      if v != view {
        assert IdsBelow(registry[v], n0);
      }
    }
    forall v | v in registry - {view}
      ensures IdsBelow(registry[v], n)
    {
      assert IdsBelow(registry[v], n0);
    }
  }

  /** A synchronisation of one view keeps a valid registry valid under the advanced counter. */
  lemma SyncKeepsValid(registry: map<View, seq<MountedComponent>>, view: View, containers: seq<Container>,
                       file: OpenFile, settable: Instance -> bool, next: nat)
    requires RegistryValid(registry, next)
    ensures var r := Reconcile(ListOf(registry, view), containers, file, settable, next);
      RegistryValid(Store(registry, view, r.mounted), r.next)
  {
    var existing := ListOf(registry, view);
    assert IdsBelow(existing, next);
    ReconcileIdsBelow(existing, containers, file, settable, next);
    var r := Reconcile(existing, containers, file, settable, next);
    StoreKeepsValid(registry, view, r.mounted, next, r.next);
  }

  /**
   A synchronisation against distinct containers records a well-formed list:
   one entry per container, every widget instance different, and every
   identity below the next fresh one.
   */
  lemma ReconcileWellFormed(existing: seq<MountedComponent>, containers: seq<Container>, file: OpenFile,
                            settable: Instance -> bool, next: nat)
    requires Distinct(containers) && UniqueComponents(existing)
    requires IdsBelow(existing, next)
    ensures var r := Reconcile(existing, containers, file, settable, next);
      WellFormed(r.mounted) && IdsBelow(r.mounted, r.next)
  {
    var index := IndexByContainer(existing);
    var r := Reconcile(existing, containers, file, settable, next);
    ReconcileBinds(existing, containers, file, settable, next);
    IndexMembers(existing);
    MountPassKept(index, containers, file, settable, next);
    MountPassFresh(index, containers, file, settable, next);
    MountPassIncreasing(index, containers, file, settable, next);
    forall i | 0 <= i < |containers| && Kept(index, containers[i], file)
      ensures r.mounted[i] in existing && r.mounted[i].component.id < next
    {
      var k :| 0 <= k < |existing| && existing[k] == r.mounted[i];
    }
    forall i, j | 0 <= i < j < |containers| ensures r.mounted[i].component != r.mounted[j].component {
      if Kept(index, containers[i], file) && Kept(index, containers[j], file) {
        var ki :| 0 <= ki < |existing| && existing[ki] == r.mounted[i];
        var kj :| 0 <= kj < |existing| && existing[kj] == r.mounted[j];
        assert r.mounted[i].container != r.mounted[j].container;
        assert ki != kj;
      }
    }
  }

  /**
   Synchronising a view that is already in line with its containers and its
   file (one entry per distinct container, in order, each bound to the same
   file object and path) mounts, unmounts, clears and removes nothing, keeps
   the very same entries and draws no fresh identity.
   */
  lemma {:induction false} ReconcileInLineIsNoOp(existing: seq<MountedComponent>, containers: seq<Container>,
                                                 file: OpenFile, settable: Instance -> bool, next: nat)
    requires Distinct(containers) && |existing| == |containers|
    requires forall i :: 0 <= i < |existing| ==> existing[i].container == containers[i] && !ShouldRemount(existing[i], file)
    ensures var r := Reconcile(existing, containers, file, settable, next);
      r.mounted == existing && r.next == next && forall ev :: ev in r.events ==> ev.SetFileProp?
  {
    var index := IndexByContainer(existing);
    var p := MountPass(index, containers, file, settable, next);
    IndexOfUnique(existing);
    assert forall i :: 0 <= i < |containers| ==> index[containers[i]] == existing[i];
    assert forall i :: 0 <= i < |containers| ==> Kept(index, containers[i], file);
    MountPassKept(index, containers, file, settable, next);
    MountPassFresh(index, containers, file, settable, next);
    MountPassKeepsAll(index, containers, file, settable, next);
    ReusedIsDiscovered(existing, containers, file, settable, next);
    StaleTeardownOfAllReused(existing, Reused(p.mounted));
  }

  /**
   Idempotence: synchronising a second time with the same distinct containers
   and the same file (same object, unchanged path) mounts and unmounts
   nothing, keeps the same instances and only rebinds them in place.
   */
  lemma ReconcileIdempotent(existing: seq<MountedComponent>, containers: seq<Container>, file: OpenFile,
                            settable: Instance -> bool, next: nat)
    requires Distinct(containers)
    ensures var r1 := Reconcile(existing, containers, file, settable, next);
      var r2 := Reconcile(r1.mounted, containers, file, settable, r1.next);
      r2.mounted == r1.mounted && r2.next == r1.next && forall ev :: ev in r2.events ==> ev.SetFileProp?
  {
    var r1 := Reconcile(existing, containers, file, settable, next);
    ReconcileBinds(existing, containers, file, settable, next);
    ReconcileInLineIsNoOp(r1.mounted, containers, file, settable, r1.next);
  }
}
