/** The configuration guards of polyhex/objects/decorators.py: each one
    runs the wrapped method for the single implemented variant, raises
    NotImplementedError for the other known variants and ValueError for
    anything else. */
module Decorators {
  import opened Wrappers

  /** What a guard decides before the wrapped method would run. */
  datatype Guard = Run | Raise(error: Error)

  /** Guard on the vertex orientation. */
  function OrientationGuard(orientation: string): (g: Guard)
    ensures g == Run <==> orientation == "clockwise"
    ensures g == Raise(NotImplementedError) <==> orientation == "counterclockwise"
    ensures g == Run || g == Raise(NotImplementedError) || g == Raise(ValueError)
  {
    if orientation == "clockwise" then Run
    else if orientation in ["counterclockwise"] then Raise(NotImplementedError)
    else Raise(ValueError)
  }

  /** Guard on the hexagonal coordinate system. */
  function SystemGuard(system: string): (g: Guard)
    ensures g == Run <==> system == "axial"
    ensures g == Raise(NotImplementedError) <==> system in {"offset", "cube", "doubled"}
    ensures g == Run || g == Raise(NotImplementedError) || g == Raise(ValueError)
  {
    if system == "axial" then Run
    else if system in ["offset", "cube", "doubled"] then Raise(NotImplementedError)
    else Raise(ValueError)
  }

  /** Guard on the hexagon top. */
  function TopGuard(top: string): (g: Guard)
    ensures g == Run <==> top == "pointy"
    ensures g == Raise(NotImplementedError) <==> top == "flat"
    ensures g == Run || g == Raise(NotImplementedError) || g == Raise(ValueError)
  {
    if top == "pointy" then Run
    else if top == "flat" then Raise(NotImplementedError)
    else Raise(ValueError)
  }

  /** A guarded call: the wrapped method's result when the guard lets it
      run, the guard's exception otherwise. */
  function Guarded<T>(g: Guard, wrapped: () -> T): (r: Result<T>)
    ensures r.Ok? <==> g == Run
    ensures r.Ok? ==> r.value == wrapped()
    ensures r.Err? ==> r.error == g.error
  {
    match g
    case Run => Ok(wrapped())
    case Raise(e) => Err(e)
  }

  /** On an error path the wrapped method has no influence on the
      outcome: it is never invoked. */
  lemma ErrorIgnoresMethod<T>(g: Guard, f: () -> T, h: () -> T)
    requires g.Raise?
    ensures Guarded(g, f) == Guarded(g, h) == Err(g.error)
  {
  }

  /** Each guard lets exactly one variant through. */
  lemma GuardsAcceptOneVariant(a: string, b: string)
    ensures SystemGuard(a) == Run && SystemGuard(b) == Run ==> a == b
    ensures TopGuard(a) == Run && TopGuard(b) == Run ==> a == b
    ensures OrientationGuard(a) == Run && OrientationGuard(b) == Run ==> a == b
  {
  }
}
