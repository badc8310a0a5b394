/** Handles and the optional-value wrapper shared by every module.

    Nodes and components are owned by shared pointers in the engine and are
    referred to elsewhere through weak pointers. The model keeps them in arenas
    addressed by these handles; a handle that no longer resolves is an expired
    weak pointer. */
module Base {

  /** Handle of a scene-graph node. */
  type NodeId = nat

  /** Handle of a component attached to a node. */
  type ComponentId = nat

  datatype Option<+T> = None | Some(value: T)

  function Min(a: real, b: real): real { if a <= b then a else b }

  function Max(a: real, b: real): real { if a >= b then a else b }
}
