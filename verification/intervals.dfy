/**
 * The values the interval algebra works on: an interval type tag, endpoints and intervals,
 * and the configuration objects handed to the Endpoint and Interval constructors.
 */
module Intervals {
  import opened Numbers
  import opened Results

  /** The interval type tag: 'integer' or 'float'. */
  datatype Type = Integer | Float

  /** An endpoint as the operators read it: `value` and `included`. */
  datatype Endpoint = Endpoint(value: Ext, included: bool)

  /** An interval: a type tag with a `from` and a `to` endpoint (from > to is allowed: it is empty). */
  datatype Interval = Interval(ty: Type, from: Endpoint, to: Endpoint)

  /**
   * The revision a definition comes from: the TypeScript sources (and their tsc output),
   * the UMD set under src/js, and the monolith src/interval.js with src/endpoint.js.
   */
  datatype Revision = Ts | Umd | Legacy

  /** An object literal `{value, included, type}` given to an endpoint constructor or setter; absent keys are Undefined. */
  datatype EndpointSpec = EndpointSpec(value: JsVal, included: JsVal, ty: JsVal)

  /** The object literal `{value: e.value, included: e.included}` the operators build. */
  function SpecOf(e: Endpoint): EndpointSpec {
    EndpointSpec(Num(e.value), Bool(e.included), Undefined)
  }

  /** One entry of the `endpoints` array: an object (an Endpoint or a literal) or a bare value. */
  datatype EndpointItem = Object(spec: EndpointSpec) | Bare(v: JsVal)

  /** The `endpoints` key of an Interval config: absent (or falsy), some non-array value, or an array. */
  datatype EndpointList = NoList | NotAnArray | List(items: seq<EndpointItem>)

  /** An Interval constructor config `{type, from, to, endpoints}`; None is an absent key. */
  datatype Config = Config(ty: JsVal, from: Option<EndpointSpec>, to: Option<EndpointSpec>, endpoints: EndpointList)

  /** The string a type tag is stored as. */
  function TypeName(t: Type): JsVal {
    match t
    case Integer => Str("integer")
    case Float => Str("float")
  }

  /** The `type` setter (identical in every revision): only 'integer' and 'float' are accepted; otherwise a plain Error. */
  function ParseType(x: JsVal): (r: Result<Type>)
    ensures r.Ok? <==> x == Str("integer") || x == Str("float")
    ensures r.Ok? ==> TypeName(r.value) == x
    ensures r.Err? ==> r.error == Thrown(PlainError)
  {
    if x == Str("integer") then Ok(Integer)
    else if x == Str("float") then Ok(Float)
    else Err(Thrown(PlainError))
  }

  /**
   * The error the legacy `from`/`to` setters (and the src/js `to` setter) throw on failure: a new
   * TypeError when the cause was one, a plain Error otherwise, carrying the cause as `inner`.
   */
  function Rewrapped(e: Error): (w: Error)
    ensures w.Rethrown? && w.inner == e
    ensures w.kind == TypeError <==> e.kind == TypeError
    ensures w.kind != TypeError ==> w.kind == PlainError
  {
    Rethrown(if e.kind == TypeError then TypeError else PlainError, e)
  }

  /** The data-model invariant: an integer interval holds integral or infinite endpoint values. */
  predicate WellTyped(i: Interval) {
    i.ty == Integer ==> IsInteger(i.from.value) && IsInteger(i.to.value)
  }
}
