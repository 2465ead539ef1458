/**
 * Where values come from and go to inside a callable. R is a source range, or the anchor that
 * authenticates one.
 */
module Provenance {
  import opened Options

  type CallableId = string

  datatype Range = Range(start: nat, end: nat)

  datatype Anchor = Anchor(module_: string, digest: string, start: nat, end: nat)

  datatype Origin<R> =
    | ParameterValue(index: nat, name: string, declaration: R, reference: R)
    | CallResult(callsite: R, callee: string, calleeRange: R)
    | EffectSite(site: R)

  datatype Alias<R> = Alias(binding: R, initializer: R, reference: R)

  datatype Step<R> =
    | AliasStep(alias: Alias<R>)
    | ChoiceStep(site: R, branch: nat, child: R)
    | PromiseAllStep(site: R, promise: R, argument: R, arrayAlias: Option<Alias<R>>, childIndex: nat,
                     childCount: nat, child: R)

  datatype Sink<R> =
    | Await(site: R, value: R)
    | Return(site: R, value: R)
    | CallArgument(callsite: R, callee: string, calleeRange: R, argumentIndex: nat, value: R)

  datatype ValuePath<R> = ValuePath(origin: Origin<R>, steps: seq<Step<R>>, sink: Sink<R>)

  /** The same origin, by whatever reference it is reached. */
  predicate SameOrigin(a: Origin<Anchor>, b: Origin<Anchor>) {
    match (a, b)
    case (ParameterValue(i, _, d, _), ParameterValue(j, _, e, _)) => i == j && d == e
    case (CallResult(c, _, _), CallResult(d, _, _)) => c == d
    case (EffectSite(s), EffectSite(t)) => s == t
    case _ => false
  }
}
