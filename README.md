# ComponentManager reconciliation, modelled and verified in Dafny

This project models the component manager of a note-taking plugin that shows
a widget in every "two-hop links" container of each open markdown view. The
manager keeps a registry from views to an ordered list of mounted widgets,
each bound to a container, a file object and that file's path as seen at
mount time. On each call it brings a view's list in line with the view's
containers and current file:

- a container with no widget gets a fresh one;
- a widget whose file object and path are unchanged is kept and rebound;
- a widget whose file object or its path changed is retired in place (unmounted,
  container content cleared) and a fresh widget is mounted into the same container.

Widgets whose container was not rediscovered are unmounted and their container
is removed. A view whose list would be empty is dropped from the registry.
Calling the manager without a file tears the whole view down.

Files:

- `lifecycle.dfy` (module `Lifecycle`) defines the entities:
  - views, containers, file objects and widget instances, all known only by identity;
  - the `MountedComponent` record;
  - the effect `Event`s of the foreign calls: `mount`, `$set`, `unmount`, and
    clearing or removing a container;
  - well-formedness predicates over lists.
- `reconcile.dfy` (module `Reconciliation`) gives the specification functions:
  - one iteration of the container loop (`Step`);
  - the whole loop (`MountPass`);
  - the stale-entry loop (`StaleTeardown`);
  - a whole synchronisation (`Reconcile`);
  - the registry update (`Store`);
  - the whole-view teardown (`TeardownEvents`).

  It also holds the basic lemmas about the container index and the loop, and,
  in a section of its own, the single-step facts (one more iteration, one
  unfolding, associativity of concatenation) that the proofs and the loops use.
- `reconcile_properties.dfy` (module `ReconcileProperties`) holds the
  properties the component manager promises.
- `component_manager.dfy` (module `Manager`) defines the class `ComponentManager`:
  - fields: the registry `mountedComponents`, a fresh-identity counter, and
    a ghost log of effects;
  - methods: those of the source, loop by loop; each is proved to leave the
    registry, the log and the counter exactly as the specification functions say.

Modelling decisions:

- The foreign calls (the widget framework's `mount`, `$set`, `unmount` and
  the DOM writes) become events appended to `log`. `mount` hands out
  `Instance(nextInstance)` and advances the counter. Whether an instance
  offers `$set` is the function `settable`, fixed at construction.
- Container discovery is an input: the `containers` sequence passed to
  `MountComponentsForView`.
- The source builds a `Map` from the existing list, and for a repeated
  container the later entry wins. `IndexByContainer` does the same, and
  `IndexLastWins` proves it.
- An exception thrown by `unmount` is a nondeterministic flag in
  `UnmountMountedComponent`. It is caught. The container step and the rest of
  the caller's loop happen either way, as the method's postcondition states
  for every outcome.
- The file-change test is `ShouldRemount`, the model of
  `shouldRemountComponent`: the file object differs, or the stored path
  differs from the file's current path. A changed file always
  means retire and remount, even when the widget offers `$set`.
- Duplicate containers in the input are not excluded: the model processes
  them as the source does. The properties that need distinct containers take
  that as a premise (`Distinct`).

## Model

| member | source | states |
|---|---|---|
| Reconciliation.KeptIffBound | src/ComponentManager.ts:84-100 | a widget is not due for a remount (`!ShouldRemount`) exactly when updating it with the file and its path leaves the record as it was; after the update the record holds the file and its current path |
| Reconciliation.IndexByContainer | src/ComponentManager.ts:38-40 | the container map files every entry under its own container and has a key for the container of every existing entry |
| Reconciliation.IndexMembers | src/ComponentManager.ts:38-40 | every value of the container map is an existing entry |
| Reconciliation.IndexLastWins | src/ComponentManager.ts:38-40 | for a container listed more than once, the map holds the last entry |
| Reconciliation.IndexOfUnique | src/ComponentManager.ts:38-40 | with one entry per container, looking up an entry's container finds that entry |
| Reconciliation.MountPass | src/ComponentManager.ts:43-58 | the container loop records exactly one entry per container and never takes back a fresh identity |
| Reconciliation.MountPassBinds | src/ComponentManager.ts:43-58 | entry i of the loop belongs to container i and is bound to the file and its current path, whether fresh, remounted or kept |
| Reconciliation.MountPassKept | src/ComponentManager.ts:51-54 | when container i's existing widget is not due for a remount (`!ShouldRemount`), entry i is that very record |
| Reconciliation.MountPassFresh | src/ComponentManager.ts:43-58 | otherwise entry i is an instance with an identity drawn during the loop, and a mount of it into container i with the file was performed |
| Reconciliation.MountPassIncreasing | src/ComponentManager.ts:43-58 | instances mounted later in the loop have larger identities, so no two fresh entries share an instance |
| Reconciliation.Reconcile | src/ComponentManager.ts:35-74 | a synchronisation records one entry per discovered container and never takes back a fresh identity |
| Reconciliation.ReconcileBinds | src/ComponentManager.ts:41-58 | after a synchronisation entry i belongs to container i, in discovery order, and is bound to the file object and its current path |
| Reconciliation.TrackedIffMounted | src/ComponentManager.ts:37-64 | in a valid registry a view is tracked exactly when the list read for it (empty when untracked) has at least one widget |
| Reconciliation.Store | src/ComponentManager.ts:60-64 | the view is tracked afterwards exactly when its new list is non-empty, with that list; every other view is unchanged |
| ReconcileProperties.IndexInjective | src/ComponentManager.ts:38-40 | with distinct instances, an instance is filed under its own container only |
| ReconcileProperties.MountPassAppend | src/ComponentManager.ts:43-58 | running the container loop over two lists in turn equals running it over their concatenation |
| ReconcileProperties.MountPassSplit | src/ComponentManager.ts:43-58 | the loop's entries and effects split around the iteration for any container k |
| ReconcileProperties.MountPassNeverRemoves | src/ComponentManager.ts:43-58 | the container loop never removes a container from the document |
| ReconcileProperties.StepUnmounts | src/ComponentManager.ts:44-57 | one iteration unmounts an existing widget once exactly when it is that widget's container and its file changed, and otherwise not at all |
| ReconcileProperties.MountPassUnmounts | src/ComponentManager.ts:43-58 | over distinct containers, the loop unmounts an existing widget once when its container is rediscovered with a changed file, and never otherwise |
| ReconcileProperties.MountPassKeepsAll | src/ComponentManager.ts:43-58 | when every container's widget is kept, the loop draws no identity and performs only `$set` calls |
| ReconcileProperties.StepMounts | src/ComponentManager.ts:44-57 | one iteration mounts into a container once exactly when it is that container's iteration and its widget is not kept, and otherwise not at all |
| ReconcileProperties.MountPassMountsOnce | src/ComponentManager.ts:43-58 | over distinct containers, the loop mounts into a container exactly once when it is discovered and its widget is not kept, and never otherwise, so no container gets two widgets |
| ReconcileProperties.MountPassRebinds | src/ComponentManager.ts:51-53 | every kept widget that offers `$set` is passed the file |
| ReconcileProperties.MountPassRemountBlock | src/ComponentManager.ts:46-50 | in the loop, a remounted container contributes its unmount, its clearing and the new mount as one contiguous block |
| ReconcileProperties.StaleTeardownOrigin | src/ComponentManager.ts:66-73 | the stale-entry loop only unmounts and removes, and only existing entries whose container was not reused |
| ReconcileProperties.StaleTeardownAbsent | src/ComponentManager.ts:66-73 | the stale-entry loop never touches an instance or container not in the existing list |
| ReconcileProperties.StaleTeardownOnce | src/ComponentManager.ts:66-73 | in a well-formed list, a stale entry is unmounted once and its container removed once; a reused one is neither |
| ReconcileProperties.StaleTeardownMountsNothing | src/ComponentManager.ts:66-73 | the stale-entry loop mounts into no container |
| ReconcileProperties.StaleTeardownOfNothing | src/ComponentManager.ts:66-73 | with nothing reused, the stale-entry loop is the teardown of the whole view |
| ReconcileProperties.StaleTeardownOfAllReused | src/ComponentManager.ts:66-73 | with every container reused, the stale-entry loop does nothing |
| ReconcileProperties.TeardownUnmountsEach | src/ComponentManager.ts:25-33 | tearing down a well-formed view unmounts each widget exactly once and removes each container exactly once; it performs no other kind of effect, and every instance it unmounts and every container it removes belongs to the view's list |
| ReconcileProperties.ReusedIsDiscovered | src/ComponentManager.ts:66-68 | the reused containers are exactly the discovered ones |
| ReconcileProperties.NoContainersTearsDown | src/ComponentManager.ts:60-73 | with no containers, nothing is recorded (so the view is untracked), nothing is mounted, and every existing widget is unmounted and its container removed, in order |
| ReconcileProperties.ReconcileRetires | src/ComponentManager.ts:43-73 | an existing widget is unmounted exactly once unless its container is rediscovered with an unchanged file; in that case it is kept as it was. Its container is removed exactly when it was not rediscovered. A rediscovered container with a changed file gets a fresh instance and exactly one mount; one with an unchanged file gets no mount |
| ReconcileProperties.ReconcileMountsOnce | src/ComponentManager.ts:43-73 | over distinct containers, a synchronisation mounts into a container exactly once when it is discovered and has no widget yet or its widget is due for a remount, and never otherwise; a discovered container no existing entry uses gets exactly one widget |
| ReconcileProperties.RemountInPlace | src/ComponentManager.ts:46-50 | on a file change, the old widget's unmount, the clearing of its container and the new mount into that same container happen back to back |
| ReconcileProperties.ReconcileIdsBelow | src/ComponentManager.ts:43-58 | every recorded instance was handed out before the next fresh identity |
| ReconcileProperties.ReconcileWellFormed | src/ComponentManager.ts:41-58 | over distinct containers, and given an existing list with distinct instances all handed out before the counter, the recorded list has one entry per container and one container per instance, all handed out before the new counter |
| ReconcileProperties.StoreKeepsValid | src/ComponentManager.ts:60-64 | recording or dropping a view keeps every tracked list non-empty and its identities handed out |
| ReconcileProperties.SyncKeepsValid | src/ComponentManager.ts:35-74 | a synchronisation keeps every tracked list of the registry non-empty and its identities handed out |
| ReconcileProperties.ReconcileInLineIsNoOp | src/ComponentManager.ts:44-53 | a view already in line with its distinct containers and file keeps the very same entries and draws no identity; it performs only `$set` calls, with no mount, unmount, clearing or removal |
| ReconcileProperties.ReconcileIdempotent | src/ComponentManager.ts:44-53 | a second synchronisation with the same distinct containers and file keeps the same instances and mounts and unmounts nothing |
| Manager.ComponentManager.constructor | src/ComponentManager.ts:14-15 | the registry starts empty with nothing performed |
| Manager.ComponentManager.MountComponentsForView | src/ComponentManager.ts:17-23 | without a file the view is dropped and its widgets torn down, with the counter untouched; with a file the registry, effects and counter are those of a synchronisation |
| Manager.ComponentManager.UnmountViewComponents | src/ComponentManager.ts:25-33 | the view is untracked, every other view unchanged, and its widgets are unmounted with their containers removed, in list order; an untracked view yields no effect |
| Manager.ComponentManager.SyncComponentsForView | src/ComponentManager.ts:35-74 | the registry, the effects and the counter become exactly those of the synchronisation of the view's tracked list |
| Manager.ComponentManager.MountContainers | src/ComponentManager.ts:43-58 | the loop records exactly the entries of `MountPass`, performs exactly its effects in order, and leaves the counter at its next identity |
| Manager.ComponentManager.UnmountStale | src/ComponentManager.ts:66-73 | the loop performs exactly the effects of `StaleTeardown`: each existing entry whose container was not reused is unmounted and its container removed, in list order |
| Manager.ComponentManager.SyncContainer | src/ComponentManager.ts:44-57 | one container gives exactly the entry, effects and counter of `Step`: mounted fresh, kept and rebound, or retired in place and remounted |
| Manager.ComponentManager.MountComponent | src/ComponentManager.ts:76-82 | a new instance is mounted into the container with the file, and the record holds it with the file and a snapshot of its path |
| Manager.ComponentManager.UpdateMountedComponent | src/ComponentManager.ts:84-93 | `$set` is called with the file only when the instance offers it, and the record ends up bound to the file and its current path |
| Manager.ComponentManager.UnmountMountedComponent | src/ComponentManager.ts:102-117 | the instance is unmounted and then its container removed or cleared as asked, whether or not unmount threw |

## Left out

- Container discovery (`getContainerElements`, src/domUtils.ts) is not part of this model: its result is an input sequence.
- The view adapter, the event adapter and the plugin entry point (src/ViewManager.ts, src/EventManager.ts, src/main.ts) are not part of this model.
- `cleanupClosedViews` and `cleanupAllComponents`: src/main.ts:40 and src/main.ts:48 call them, but src/ComponentManager.ts does not define either, so there is no behaviour to model.
- The registry is a `WeakMap` in the source. It is an explicit finite map here, so garbage collection of closed views is not modelled.
- The error message written by `console.error` when unmount throws is not modelled; only the fact that the error is caught is.
- The widget framework's and the DOM's own behaviour is not modelled; a foreign call shows up only as an event in the log.
- `mount` (src/ComponentManager.ts:77) and `$set` (line 89) are assumed to succeed. The source catches only errors from `unmount`, so a throwing `mount` or `$set` would abort the synchronisation part-way: earlier widgets already retired, the registry write at line 61 skipped. The model does not capture that outcome.
- Manager.ComponentManager.UpdateMountedComponent: the source writes the file and path into the shared record in place. Here the record is a value, so aliasing of that record is not modelled. The update only runs when the record already holds that file and path (`KeptIffBound`), so the write changes nothing.
- Manager.ComponentManager.SyncComponentsForView: its two loops and the registry update are split into the methods `MountContainers` and `UnmountStale` and an inline update; the order of effects is unchanged.
- The mounted widget component type (the Svelte root view) and its props other than the file are not modelled.
