/**
 The reconciliation performed by `syncComponentsForView` and the teardown of
 `unmountViewComponents`, as functions from the view's existing list, the
 discovered containers and the current file to the new list, the effects in
 the order they happen, and the next fresh instance identity. The methods of
 `ComponentManager` are proved to produce exactly these; the lemmas below
 state what the source promises about them.
 */
module Reconciliation {
  import opened Lifecycle

  /** A mounted widget must be replaced when its file object changed or that file's path moved. */
  predicate ShouldRemount(m: MountedComponent, file: OpenFile) {
    m.file != file.ref || m.filePath != file.path
  }

  /** The record `mountComponent` creates for a new instance. */
  function Mounted(container: Container, file: OpenFile, instance: Instance): MountedComponent {
    MountedComponent(instance, container, file.ref, file.path)
  }

  /** The record after `updateMountedComponent` writes the file and its path into it. */
  function Rebound(m: MountedComponent, file: OpenFile): MountedComponent {
    m.(file := file.ref, filePath := file.path)
  }

  /** The `$set` call of `updateMountedComponent`, made only when the instance offers it. */
  function UpdateEvents(m: MountedComponent, file: OpenFile, settable: Instance -> bool): seq<Event> {
    if settable(m.component) then [SetFileProp(m.component, file.ref)] else []
  }

  /** The effects of `unmountMountedComponent`: unmount, then remove or clear the container. */
  function UnmountEvents(m: MountedComponent, removeContainer: bool): seq<Event> {
    [Unmount(m.component), if removeContainer then RemoveContainer(m.container) else ClearContainer(m.container)]
  }

  /** A kept widget is exactly one the update leaves as it was. */
  lemma KeptIffBound(m: MountedComponent, file: OpenFile)
    ensures !ShouldRemount(m, file) <==> Rebound(m, file) == m
    ensures Rebound(m, file).file == file.ref && Rebound(m, file).filePath == file.path
  {
  }

  /** No entry after position i uses the container of entry i. */
  predicate LastWithContainer(s: seq<MountedComponent>, i: nat)
    requires i < |s|
  {
    forall j :: i < j < |s| ==> s[j].container != s[i].container
  }

  /** Every entry of the index is filed under its own container. */
  predicate KeyedByContainer(index: map<Container, MountedComponent>) {
    forall c :: c in index ==> index[c].container == c
  }

  /**
   The container-to-entry map built from the existing list; as with a map
   built from key/value pairs, a later entry for the same container wins.
   */
  function IndexByContainer(existing: seq<MountedComponent>): (index: map<Container, MountedComponent>)
    decreases |existing|
    ensures KeyedByContainer(index)
    ensures forall i :: 0 <= i < |existing| ==> existing[i].container in index
  {
    if existing == [] then map[]
    else
      var last := existing[|existing| - 1];
      IndexByContainer(existing[..|existing| - 1])[last.container := last]
  }

  /** The index holds only existing entries. */
  lemma {:induction false} IndexMembers(existing: seq<MountedComponent>)
    decreases |existing|
    ensures forall c :: c in IndexByContainer(existing) ==> IndexByContainer(existing)[c] in existing
  {
    if existing != [] {
      var prefix, last := existing[..|existing| - 1], existing[|existing| - 1];
      IndexMembers(prefix);
      assert existing == prefix + [last];
      var before := IndexByContainer(prefix);
      forall c | c in IndexByContainer(existing)
        ensures IndexByContainer(existing)[c] in existing
      {
        if c != last.container {
          assert IndexByContainer(existing)[c] == before[c];
        }
      }
    }
  }

  /** The index files the last entry for each container under it. */
  lemma {:induction false} IndexLastWins(existing: seq<MountedComponent>, i: nat)
    requires i < |existing| && LastWithContainer(existing, i)
    decreases |existing|
    ensures IndexByContainer(existing)[existing[i].container] == existing[i]
  {
    var prefix, last := existing[..|existing| - 1], existing[|existing| - 1];
    if i < |prefix| {
      assert existing[i] == prefix[i];
      assert existing[i].container != last.container;
      assert LastWithContainer(prefix, i);
      IndexLastWins(prefix, i);
    }
  }

  /** With one entry per container, the index finds each entry under its container. */
  lemma IndexOfUnique(existing: seq<MountedComponent>)
    requires UniqueContainers(existing)
    ensures forall i :: 0 <= i < |existing| ==> IndexByContainer(existing)[existing[i].container] == existing[i]
  {
    forall i | 0 <= i < |existing|
      ensures IndexByContainer(existing)[existing[i].container] == existing[i]
    {
      IndexLastWins(existing, i);
    }
  }

  /** The outcome of a pass: the entries recorded, the effects in order, the next fresh identity. */
  datatype Pass = Pass(mounted: seq<MountedComponent>, events: seq<Event>, next: nat)

  /** The existing widget of container c is kept (not remounted). */
  predicate Kept(index: map<Container, MountedComponent>, c: Container, file: OpenFile) {
    c in index && !ShouldRemount(index[c], file)
  }

  /** One iteration of the container loop: mount fresh, keep and rebind, or retire in place and remount. */
  function Step(index: map<Container, MountedComponent>, c: Container, file: OpenFile,
                settable: Instance -> bool, next: nat): Pass
  {
    if c in index then
      var m := index[c];
      if ShouldRemount(m, file) then
        Pass([Mounted(c, file, Instance(next))],
             UnmountEvents(m, false) + [Mount(c, file.ref, Instance(next))], next + 1)
      else
        Pass([Rebound(m, file)], UpdateEvents(m, file, settable), next)
    else
      Pass([Mounted(c, file, Instance(next))], [Mount(c, file.ref, Instance(next))], next + 1)
  }

  /** The container loop: one entry recorded per container, fresh identities drawn from `next` on. */
  function MountPass(index: map<Container, MountedComponent>, containers: seq<Container>,
                     file: OpenFile, settable: Instance -> bool, next: nat): (p: Pass)
    decreases |containers|
    ensures |p.mounted| == |containers| && next <= p.next
  {
    if containers == [] then Pass([], [], next)
    else
      var done := MountPass(index, containers[..|containers| - 1], file, settable, next);
      var s := Step(index, containers[|containers| - 1], file, settable, done.next);
      Pass(done.mounted + s.mounted, done.events + s.events, s.next)
  }

  /** Entry i of the pass belongs to container i and is bound to the file and its current path. */
  lemma {:induction false} MountPassBinds(index: map<Container, MountedComponent>, containers: seq<Container>,
                                          file: OpenFile, settable: Instance -> bool, next: nat)
    requires KeyedByContainer(index)
    decreases |containers|
    ensures var p := MountPass(index, containers, file, settable, next);
      forall i :: 0 <= i < |containers| ==>
        p.mounted[i].container == containers[i] &&
        p.mounted[i].file == file.ref && p.mounted[i].filePath == file.path
  {
    if containers != [] {
      var prefix := containers[..|containers| - 1];
      MountPassBinds(index, prefix, file, settable, next);
      var done := MountPass(index, prefix, file, settable, next);
      var p := MountPass(index, containers, file, settable, next);
      assert p.mounted == done.mounted + Step(index, containers[|prefix|], file, settable, done.next).mounted;
      assert forall i :: 0 <= i < |prefix| ==> prefix[i] == containers[i] && p.mounted[i] == done.mounted[i];
    }
  }

  /** Entry i of the pass is the existing record of container i when that one is kept. */
  lemma {:induction false} MountPassKept(index: map<Container, MountedComponent>, containers: seq<Container>,
                                         file: OpenFile, settable: Instance -> bool, next: nat)
    decreases |containers|
    ensures var p := MountPass(index, containers, file, settable, next);
      forall i :: 0 <= i < |containers| && Kept(index, containers[i], file) ==> p.mounted[i] == index[containers[i]]
  {
    if containers != [] {
      var prefix := containers[..|containers| - 1];
      MountPassKept(index, prefix, file, settable, next);
      var done := MountPass(index, prefix, file, settable, next);
      var s := Step(index, containers[|prefix|], file, settable, done.next);
      var p := MountPass(index, containers, file, settable, next);
      assert p.mounted == done.mounted + s.mounted;
      assert forall i :: 0 <= i < |prefix| ==> prefix[i] == containers[i] && p.mounted[i] == done.mounted[i];
      if Kept(index, containers[|prefix|], file) {
        KeptIffBound(index[containers[|prefix|]], file);
      }
    }
  }

  /**
   Entry i of the pass, when its container's widget is not kept, is an
   instance mounted during the pass with a fresh identity.
   */
  lemma {:induction false} MountPassFresh(index: map<Container, MountedComponent>, containers: seq<Container>,
                                          file: OpenFile, settable: Instance -> bool, next: nat)
    decreases |containers|
    ensures var p := MountPass(index, containers, file, settable, next);
      forall i :: 0 <= i < |containers| && !Kept(index, containers[i], file) ==>
        next <= p.mounted[i].component.id < p.next &&
        Mount(containers[i], file.ref, p.mounted[i].component) in p.events
  {
    if containers != [] {
      var prefix := containers[..|containers| - 1];
      MountPassFresh(index, prefix, file, settable, next);
      var done := MountPass(index, prefix, file, settable, next);
      var s := Step(index, containers[|prefix|], file, settable, done.next);
      var p := MountPass(index, containers, file, settable, next);
      assert p.mounted == done.mounted + s.mounted && p.events == done.events + s.events;
      assert forall i :: 0 <= i < |prefix| ==> prefix[i] == containers[i] && p.mounted[i] == done.mounted[i];
      assert p.mounted[|prefix|] == s.mounted[0];
    }
  }

  /** Fresh identities increase along the list. */
  lemma {:induction false} MountPassIncreasing(index: map<Container, MountedComponent>, containers: seq<Container>,
                                               file: OpenFile, settable: Instance -> bool, next: nat)
    decreases |containers|
    ensures var p := MountPass(index, containers, file, settable, next);
      forall i, j :: 0 <= i < j < |containers| && !Kept(index, containers[i], file) ==>
        !Kept(index, containers[j], file) ==> p.mounted[i].component.id < p.mounted[j].component.id
  {
    if containers != [] {
      var prefix := containers[..|containers| - 1];
      MountPassIncreasing(index, prefix, file, settable, next);
      MountPassFresh(index, prefix, file, settable, next);
      var done := MountPass(index, prefix, file, settable, next);
      var s := Step(index, containers[|prefix|], file, settable, done.next);
      var p := MountPass(index, containers, file, settable, next);
      assert p.mounted == done.mounted + s.mounted;
      assert forall i :: 0 <= i < |prefix| ==> prefix[i] == containers[i] && p.mounted[i] == done.mounted[i];
      assert p.mounted[|prefix|] == s.mounted[0];
    }
  }

  /** The containers still in use after the container loop. */
  function Reused(list: seq<MountedComponent>): set<Container> {
    set m | m in list :: m.container
  }

  /** The stale-entry loop: each existing entry whose container was not reused is torn down. */
  function StaleTeardown(existing: seq<MountedComponent>, reused: set<Container>): seq<Event>
    decreases |existing|
  {
    if existing == [] then []
    else
      var last := existing[|existing| - 1];
      StaleTeardown(existing[..|existing| - 1], reused) +
        (if last.container in reused then [] else UnmountEvents(last, true))
  }

  /** The number of mounts into container c among the effects. */
  function MountsInto(events: seq<Event>, c: Container): nat
    decreases |events|
  {
    if events == [] then 0
    else
      var last := events[|events| - 1];
      MountsInto(events[..|events| - 1], c) + (if last.Mount? && last.target == c then 1 else 0)
  }

  /** The teardown of a whole view: every entry unmounted and its container removed, in order. */
  function TeardownEvents(list: seq<MountedComponent>): seq<Event>
    decreases |list|
  {
    if list == [] then []
    else TeardownEvents(list[..|list| - 1]) + UnmountEvents(list[|list| - 1], true)
  }

  /**
   One synchronisation of a view whose tracked list is `existing`: the list it
   records has one entry per discovered container, in discovery order, each
   bound to the file and its current path.
   */
  function Reconcile(existing: seq<MountedComponent>, containers: seq<Container>, file: OpenFile,
                     settable: Instance -> bool, next: nat): (r: Pass)
    ensures |r.mounted| == |containers| && next <= r.next
  {
    var index := IndexByContainer(existing);
    var p := MountPass(index, containers, file, settable, next);
    Pass(p.mounted, p.events + StaleTeardown(existing, Reused(p.mounted)), p.next)
  }

  /** Entry i of a synchronisation belongs to container i and is bound to the file and its current path. */
  lemma ReconcileBinds(existing: seq<MountedComponent>, containers: seq<Container>, file: OpenFile,
                       settable: Instance -> bool, next: nat)
    ensures var r := Reconcile(existing, containers, file, settable, next);
      forall i :: 0 <= i < |containers| ==>
        r.mounted[i].container == containers[i] &&
        r.mounted[i].file == file.ref && r.mounted[i].filePath == file.path
  {
    MountPassBinds(IndexByContainer(existing), containers, file, settable, next);
  }

  /** The registry after recording a view's list: an empty list untracks the view. */
  function Store(registry: map<View, seq<MountedComponent>>, view: View, list: seq<MountedComponent>)
    : (r: map<View, seq<MountedComponent>>)
    ensures view in r <==> list != []
    ensures view in r ==> r[view] == list
    ensures forall w :: w != view ==> (w in r <==> w in registry) && (w in r ==> r[w] == registry[w])
  {
    if list != [] then registry[view := list] else registry - {view}
  }

  /** The list a registry holds for a view; an untracked view has none. */
  function ListOf(registry: map<View, seq<MountedComponent>>, view: View): seq<MountedComponent> {
    if view in registry then registry[view] else []
  }

  /** Every tracked view of a registry has at least one widget, all with identities below n. */
  predicate RegistryValid(registry: map<View, seq<MountedComponent>>, n: nat) {
    forall v :: v in registry ==> registry[v] != [] && IdsBelow(registry[v], n)
  }

  /** In a valid registry a view is tracked exactly when it has at least one widget. */
  lemma TrackedIffMounted(registry: map<View, seq<MountedComponent>>, n: nat, view: View)
    requires RegistryValid(registry, n)
    ensures view in registry <==> ListOf(registry, view) != []
  {
  }

  // ---------------------------------------------------------------------
  // Proof steps: single unfoldings and sequence facts used by the lemmas of
  // ReconcileProperties and by the loops of ComponentManager
  // ---------------------------------------------------------------------

  /** Concatenation of sequences is associative. */
  lemma ConcatAssoc<T>(x: seq<T>, y: seq<T>, z: seq<T>)
    ensures x + y + z == x + (y + z)
  {
  }

  /** Splitting off the last of distinct containers. */
  lemma DistinctLast(containers: seq<Container>, x: Container)
    requires Distinct(containers) && containers != []
    ensures var prefix, c := containers[..|containers| - 1], containers[|containers| - 1];
      Distinct(prefix) && (x in containers <==> x in prefix || x == c) && (x == c ==> x !in prefix)
  {
    assert containers == containers[..|containers| - 1] + [containers[|containers| - 1]];
  }

  /** The loop's effects are the effects of all but the last iteration, then the last. */
  lemma MountPassLast(index: map<Container, MountedComponent>, containers: seq<Container>,
                      file: OpenFile, settable: Instance -> bool, next: nat)
    requires containers != []
    ensures var done := MountPass(index, containers[..|containers| - 1], file, settable, next);
      MountPass(index, containers, file, settable, next).events ==
        done.events + Step(index, containers[|containers| - 1], file, settable, done.next).events
  {
  }

  /** One more iteration of the stale-entry loop. */
  lemma StaleTeardownExtend(existing: seq<MountedComponent>, reused: set<Container>, j: nat)
    requires j < |existing|
    ensures StaleTeardown(existing[..j + 1], reused) ==
      StaleTeardown(existing[..j], reused) +
      (if existing[j].container in reused then [] else UnmountEvents(existing[j], true))
  {
    assert existing[..j + 1][..j] == existing[..j];
  }

  /** The loop over a single container is one iteration. */
  lemma SingleContainerPass(index: map<Container, MountedComponent>, c: Container, file: OpenFile,
                            settable: Instance -> bool, next: nat)
    ensures MountPass(index, [c], file, settable, next) == Step(index, c, file, settable, next)
  {
    assert [c][..0] == [];
  }

  /** One more iteration of the container loop. */
  lemma MountPassExtend(index: map<Container, MountedComponent>, containers: seq<Container>, file: OpenFile,
                        settable: Instance -> bool, next: nat, i: nat)
    requires i < |containers|
    ensures var p := MountPass(index, containers[..i], file, settable, next);
      var s := Step(index, containers[i], file, settable, p.next);
      MountPass(index, containers[..i + 1], file, settable, next) == Pass(p.mounted + s.mounted, p.events + s.events, s.next)
  {
    assert containers[..i + 1][..i] == containers[..i];
  }
}
