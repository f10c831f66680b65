/**
 The component manager: a registry from views to their mounted widgets,
 kept in line with each view's containers and current file. Its methods do
 what the source's methods do, step by step, and each is proved to leave the
 registry, the effect log and the fresh-identity counter exactly as the
 functions of module Reconciliation say.
 */
module Manager {
  import opened Lifecycle
  import opened Reconciliation
  import opened ReconcileProperties

  class ComponentManager {
    /** The registry: each tracked view and its widgets, in container order. */
    var mountedComponents: map<View, seq<MountedComponent>>
    /** The identity the next `mount` returns; every earlier instance has a smaller one. */
    var nextInstance: nat
    /** The foreign effects performed so far, in order. */
    ghost var log: seq<Event>
    /** Which instances offer `$set` (a property of the widget framework). */
    const settable: Instance -> bool

    /** A tracked view has at least one widget, and every tracked instance was handed out already. */
    ghost predicate Valid()
      reads this
    {
      RegistryValid(mountedComponents, nextInstance)
    }

    /** The list tracked for a view; an untracked view has none. */
    function Tracked(view: View): seq<MountedComponent>
      reads this
    {
      ListOf(mountedComponents, view)
    }

    constructor (settable: Instance -> bool)
      ensures Valid()
      ensures mountedComponents == map[] && log == [] && this.settable == settable
    {
      mountedComponents := map[];
      nextInstance := 0;
      log := [];
      this.settable := settable;
    }

    /** Synchronise a view with its file, or tear it down when no file is open. */
    method MountComponentsForView(view: View, file: Option<OpenFile>, containers: seq<Container>)
      requires Valid()
      modifies this
      ensures Valid()
      ensures file.None? ==>
        && mountedComponents == old(mountedComponents) - {view}
        && log == old(log) + TeardownEvents(old(Tracked(view)))
        && nextInstance == old(nextInstance)
      ensures file.Some? ==>
        var r := Reconcile(old(Tracked(view)), containers, file.value, settable, old(nextInstance));
        && mountedComponents == Store(old(mountedComponents), view, r.mounted)
        && log == old(log) + r.events
        && nextInstance == r.next
    {
      if file.None? {
        UnmountViewComponents(view);
        return;
      }
      SyncComponentsForView(view, file.value, containers);
    }

    /** Unmount every widget of a view, removing its container, and stop tracking the view. */
    method UnmountViewComponents(view: View)
      requires Valid()
      modifies this`mountedComponents, this`log
      ensures Valid()
      ensures mountedComponents == old(mountedComponents) - {view}
      ensures log == old(log) + TeardownEvents(old(Tracked(view)))
    {
      StoreKeepsValid(mountedComponents, view, [], nextInstance, nextInstance);
      var mountedList := Tracked(view);
      if |mountedList| > 0 {
        var i := 0;
        while i < |mountedList|
          invariant 0 <= i <= |mountedList|
          invariant log == old(log) + TeardownEvents(mountedList[..i])
          invariant mountedComponents == old(mountedComponents)
        {
          assert mountedList[..i + 1][..i] == mountedList[..i];
          UnmountMountedComponent(mountedList[i], true);
          i := i + 1;
        }
        assert mountedList[..i] == mountedList;
      }
      mountedComponents := mountedComponents - {view};
    }

    /**
     Bring a view's widgets in line with its discovered containers and its
     file: mount fresh, keep and rebind, or retire in place and remount, per
     container; then tear down the widgets whose container was not
     rediscovered.
     */
    method SyncComponentsForView(view: View, file: OpenFile, containers: seq<Container>)
      requires Valid()
      modifies this
      ensures Valid()
      ensures var r := Reconcile(old(Tracked(view)), containers, file, settable, old(nextInstance));
        && mountedComponents == Store(old(mountedComponents), view, r.mounted)
        && log == old(log) + r.events
        && nextInstance == r.next
    {
      SyncKeepsValid(mountedComponents, view, containers, file, settable, nextInstance);
      var existing := Tracked(view);
      ghost var r := Reconcile(existing, containers, file, settable, nextInstance);
      var containerToMount := IndexByContainer(existing);
      ghost var logBefore := log;
      var nextMounted := MountContainers(containerToMount, containers, file);
      ghost var p := MountPass(containerToMount, containers, file, settable, old(nextInstance));
      assert nextMounted == r.mounted && nextInstance == r.next;

      if |nextMounted| > 0 {
        mountedComponents := mountedComponents[view := nextMounted];
      } else {
        mountedComponents := mountedComponents - {view};
      }

      var reusedContainers := Reused(nextMounted);
      UnmountStale(existing, reusedContainers);
      ConcatAssoc(logBefore, p.events, StaleTeardown(existing, reusedContainers));
    }

    /**
     The container loop of `SyncComponentsForView`: the list of entries to
     record, one per container in order.
     */
    method MountContainers(containerToMount: map<Container, MountedComponent>, containers: seq<Container>,
                           file: OpenFile) returns (nextMounted: seq<MountedComponent>)
      modifies this`nextInstance, this`log
      ensures var p := MountPass(containerToMount, containers, file, settable, old(nextInstance));
        nextMounted == p.mounted && log == old(log) + p.events && nextInstance == p.next
    {
      nextMounted := [];
      var i := 0;
      while i < |containers|
        invariant 0 <= i <= |containers|
        invariant var p := MountPass(containerToMount, containers[..i], file, settable, old(nextInstance));
          nextMounted == p.mounted && log == old(log) + p.events && nextInstance == p.next
      {
        MountPassExtend(containerToMount, containers, file, settable, old(nextInstance), i);
        ghost var p := MountPass(containerToMount, containers[..i], file, settable, old(nextInstance));
        ghost var s := Step(containerToMount, containers[i], file, settable, nextInstance);
        ConcatAssoc(old(log), p.events, s.events);
        var mounted := SyncContainer(containerToMount, containers[i], file);
        nextMounted := nextMounted + [mounted];
        i := i + 1;
      }
      assert containers[..i] == containers;
    }

    /**
     The stale-entry loop of `SyncComponentsForView`: tear down every
     existing entry whose container is not among the reused ones.
     */
    method UnmountStale(existing: seq<MountedComponent>, reusedContainers: set<Container>)
      modifies this`log
      ensures log == old(log) + StaleTeardown(existing, reusedContainers)
    {
      var j := 0;
      assert existing[..0] == [];
      while j < |existing|
        invariant 0 <= j <= |existing|
        invariant log == old(log) + StaleTeardown(existing[..j], reusedContainers)
      {
        StaleTeardownExtend(existing, reusedContainers, j);
        var mounted := existing[j];
        if mounted.container !in reusedContainers {
          UnmountMountedComponent(mounted, true);
        }
        j := j + 1;
      }
      assert existing[..j] == existing;
    }

    /**
     The body of the container loop of `SyncComponentsForView`, for one
     container: the entry to record for it.
     */
    method SyncContainer(containerToMount: map<Container, MountedComponent>, container: Container, file: OpenFile)
      returns (entry: MountedComponent)
      modifies this`nextInstance, this`log
      ensures var s := Step(containerToMount, container, file, settable, old(nextInstance));
        [entry] == s.mounted && log == old(log) + s.events && nextInstance == s.next
    {
      if container in containerToMount {
        var mounted := containerToMount[container];
        if ShouldRemount(mounted, file) {
          UnmountMountedComponent(mounted, false);
          entry := MountComponent(container, file);
        } else {
          entry := UpdateMountedComponent(mounted, file);
        }
      } else {
        entry := MountComponent(container, file);
      }
    }

    /** Mount a new widget into a container, bound to the file and a snapshot of its path. */
    method MountComponent(container: Container, file: OpenFile) returns (mounted: MountedComponent)
      modifies this`nextInstance, this`log
      ensures mounted == Mounted(container, file, Instance(old(nextInstance)))
      ensures nextInstance == old(nextInstance) + 1
      ensures log == old(log) + [Mount(container, file.ref, mounted.component)]
    {
      var component := Instance(nextInstance);
      nextInstance := nextInstance + 1;
      log := log + [Mount(container, file.ref, component)];
      mounted := MountedComponent(component, container, file.ref, file.path);
    }

    /** Pass the file to a kept widget (when it offers `$set`) and record the file and its path. */
    method UpdateMountedComponent(mounted: MountedComponent, file: OpenFile) returns (updated: MountedComponent)
      modifies this`log
      ensures updated == Rebound(mounted, file)
      ensures updated.file == file.ref && updated.filePath == file.path
      ensures log == old(log) + UpdateEvents(mounted, file, settable)
    {
      if settable(mounted.component) {
        log := log + [SetFileProp(mounted.component, file.ref)];
      }
      updated := mounted.(file := file.ref, filePath := file.path);
    }

    /**
     Unmount a widget, then remove its container from the document or only
     clear its content. The framework's unmount may fail; the failure is
     caught, so the container step and the caller's loop go on either way.
     */
    method UnmountMountedComponent(mounted: MountedComponent, removeContainer: bool)
      modifies this`log
      ensures log == old(log) + UnmountEvents(mounted, removeContainer)
    {
      log := log + [Unmount(mounted.component)];
      // Whether unmount threw: the error is reported and swallowed, and nothing below depends on it.
      var threw: bool := *;
      if removeContainer {
        log := log + [RemoveContainer(mounted.container)];
      } else {
        log := log + [ClearContainer(mounted.container)];
      }
    }
  }
}
