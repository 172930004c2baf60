/**
 * The delegate's optional veto hooks. Each hook is given the picker's
 * current selected list as well as the asset, so a delegate may answer from
 * the picker's state (for instance to cap the number of selected assets).
 * A hook the delegate does not implement is None and allows the change.
 */
module Gate {
  import opened Wrappers

  datatype Delegate<!A> = Delegate(
    shouldEnable: Option<(seq<A>, A) -> bool>,
    shouldSelect: Option<(seq<A>, A) -> bool>,
    shouldDeselect: Option<(seq<A>, A) -> bool>,
    shouldHighlight: Option<(seq<A>, A) -> bool>)

  /** A delegate that implements none of the optional hooks. */
  function Permissive<A>(): Delegate<A> {
    Delegate(None, None, None, None)
  }

  /** The answer of an optional hook; an absent hook answers yes. */
  function Ask<A>(hook: Option<(seq<A>, A) -> bool>, sel: seq<A>, a: A): bool {
    match hook
    case None => true
    case Some(f) => f(sel, a)
  }

  function IsEnabled<A>(d: Delegate<A>, sel: seq<A>, a: A): bool { Ask(d.shouldEnable, sel, a) }
  function CanSelect<A>(d: Delegate<A>, sel: seq<A>, a: A): bool { Ask(d.shouldSelect, sel, a) }
  function CanDeselect<A>(d: Delegate<A>, sel: seq<A>, a: A): bool { Ask(d.shouldDeselect, sel, a) }
  function CanHighlight<A>(d: Delegate<A>, sel: seq<A>, a: A): bool { Ask(d.shouldHighlight, sel, a) }

  /** A delegate that implements no hook allows every change. */
  lemma PermissiveAllows<A>(sel: seq<A>, a: A)
    ensures IsEnabled(Permissive(), sel, a) && CanSelect(Permissive(), sel, a)
    ensures CanDeselect(Permissive(), sel, a) && CanHighlight(Permissive(), sel, a)
  {
  }
}
