/**
 The entities the component manager works with. Views, containers, file
 objects and widget instances are known only by identity; a file's path is a
 separate value read at the moment of a call, so that a rename (same object,
 new path) can be told apart from a switch to another file.
 */
module Lifecycle {

  /** An open markdown view of the host application. */
  datatype View = View(id: nat)

  /** An anchor element inside a view that hosts one widget. */
  datatype Container = Container(id: nat)

  /** The identity of a file object: two references are the same object iff equal. */
  datatype FileRef = FileRef(id: nat)

  /** A widget instance as returned by the framework's `mount`. */
  datatype Instance = Instance(id: nat)

  /** The file a view displays, as seen at call time: its identity and its current `path`. */
  datatype OpenFile = OpenFile(ref: FileRef, path: string)

  /**
   A widget mounted into a container, with the file object it is bound to and
   the snapshot of that file's path taken when it was mounted or last updated.
   */
  datatype MountedComponent = MountedComponent(
    component: Instance,
    container: Container,
    file: FileRef,
    filePath: string)

  /**
   The observable effects of the foreign calls: the framework's `mount`,
   `$set` and `unmount`, and the two DOM writes on a container (clearing its
   content, removing it from the document).
   */
  datatype Event =
    | Mount(target: Container, file: FileRef, instance: Instance)
    | SetFileProp(instance: Instance, file: FileRef)
    | Unmount(instance: Instance)
    | ClearContainer(container: Container)
    | RemoveContainer(container: Container)

  /** A value that may be absent, for the nullable file argument. */
  datatype Option<T> = None | Some(value: T)

  /** The containers of a discovery result are pairwise distinct. */
  predicate Distinct(cs: seq<Container>) {
    forall i, j :: 0 <= i < j < |cs| ==> cs[i] != cs[j]
  }

  /** No two entries of a list share a container. */
  predicate UniqueContainers(list: seq<MountedComponent>) {
    forall i, j :: 0 <= i < j < |list| ==> list[i].container != list[j].container
  }

  /** No two entries of a list share a widget instance. */
  predicate UniqueComponents(list: seq<MountedComponent>) {
    forall i, j :: 0 <= i < j < |list| ==> list[i].component != list[j].component
  }

  /** Every widget instance of a list has an identity below n. */
  predicate IdsBelow(list: seq<MountedComponent>, n: nat) {
    forall i :: 0 <= i < |list| ==> list[i].component.id < n
  }

  /** One entry per container and one container per widget instance. */
  predicate WellFormed(list: seq<MountedComponent>) {
    UniqueContainers(list) && UniqueComponents(list)
  }
}
