/** The backend-neutral envelope every backend stores: an id, an advisory kind and an
    opaque payload. Neither the dispatcher nor the backends branch on the kind. */
module Containers {

  /** A container id is an arbitrary byte string chosen by the producing object;
      no length or uniqueness constraint is attached to it here. */
  type ContainerId = seq<bv8>

  /** Advisory metadata for higher layers: exactly three kinds exist. */
  datatype ContainerKind = Data | Link | Bundle

  datatype Container = Container(id: ContainerId, kind: ContainerKind, data: seq<bv8>)

  /** The derived `Clone`: a field-by-field copy. The dispatcher hands every
      backend such a copy of the same container. */
  function Clone(c: Container): (r: Container)
    ensures r.id == c.id && r.kind == c.kind && r.data == c.data
    ensures r == c
  {
    Container(c.id, c.kind, c.data)
  }
}
