# Interval algebra: a verified model

This project models the interval algebra at the core of an interval library for JavaScript. The library exists in three revisions:

- the TypeScript classes `Endpoint`, `Interval` and `Operators`, with their tsc output (revision `Ts`);
- the UMD build under `src/js/` (revision `Umd`);
- the monolith `src/interval.js` together with `src/endpoint.js` (revision `Legacy`).

An **endpoint** is a number, possibly ±Infinity, plus an `included` flag. An **interval** is a type tag, `'integer'` or `'float'`, with a `from` and a `to` endpoint. The model covers:

- the endpoint and interval constructors, setters and `clear`;
- membership through `contains`, the instance `test` and the static `Interval.test`;
- `diameter`, `midpoint` and `radius`;
- the static intervals Empty, R, Z, N and NN;
- the nine classification getters;
- the operators: `complementary`, `intersects`, binary and n-ary intersection, the union endpoint helpers, and binary and n-ary union.

Values are modelled as follows:

- A non-NaN JavaScript number is `Numbers.Ext`: `NegInf`, `Fin(r)` for a real `r`, or `PosInf`.
- The differences the operators take (`d`, `d1`, `d2`) are modelled as a four-valued `Sign`. Infinity − Infinity gives `NaN`, which fails every comparison.
- Untyped arguments to constructors and setters are a `JsVal`: `undefined`, `null`, a boolean, a number, `NaN` or a string.
- Thrown exceptions are `Err` values. Each carries the error's class (`TypeError`, `RangeError` or a plain `Error`) and, when the error was re-wrapped, the cause as `inner`.

Code that updates fields in place is modelled as Dafny classes with `modifies` clauses:

- the endpoint classes, with their validating setters;
- the three `Interval` classes, with their `type`/`from`/`to` setters and `clear`;
- the monolith's two-element endpoint array `ep`, written by `addEndPoint`.

The pure parts are functions over the value type `Intervals.Interval`. These are the classification getters, membership, the metrics, the static intervals and the binary operators. Each revision's `new Interval(config)` is a function from a config record to an interval, so the model can say which config keys each constructor reads. The operators build their results with an `endpoints` key that only `src/interval.js` reads, and `Operators.Build` makes that explicit. The n-ary intersection and union are methods with `while` loops over a work stack, proved against specification functions and invariants.

## Model

| member | source | states |
|---|---|---|
| Numbers.Minus | src/intervals.operators.ts:88-95 | The sign of a − b is Neg exactly when a < b, Pos exactly when b < a, Zero on equal finite values, and NaN on equal infinities. |
| Numbers.Min | src/intervals.operators.ts:161-166 | `Math.min` of two non-NaN numbers is at most both arguments and equals one of them. |
| Numbers.Max | src/intervals.operators.ts:182-187 | `Math.max` of two non-NaN numbers is at least both arguments and equals one of them. |
| Numbers.Inc | src/intervals.classification.ts:28 | `from.value + 1` is finite exactly when `from.value` is, exceeds it by exactly 1, keeps integers integral, and leaves ±∞ unchanged. |
| Numbers.GetNumber | src/js/utils.js:23-36 | getNumber fails exactly on NaN. A number reads as itself. Only a number or a boolean yields a number. |
| Numbers.NumberValue | src/endpoint.ts:24-29 | The value setter's check accepts exactly numbers and booleans and keeps a number unchanged. Anything else is a TypeError. |
| Intervals.ParseType | src/intervals.ts:57-63 | The type setter accepts exactly 'integer' and 'float' and reads back the same name. Anything else throws a plain Error. |
| Intervals.Rewrapped | src/interval.js:361-366 | A re-wrapped error is a TypeError exactly when its cause is, and a plain Error otherwise. It carries the cause as `inner`. |
| EndpointTs.Construct | src/endpoint.ts:6-16 | Fails (TypeError) exactly when a truthy `value` is not a number or boolean. A truthy value is stored as its number (`true` as 1); a falsy one leaves the initial 0. A truthy `included` is stored as given, unchecked; otherwise it reads true, so `{included: false}` reads as included. |
| EndpointTs.CheckValue | src/endpoint.ts:40-44 | Passes whenever the spec's type is not 'integer' or the value is integral or infinite. Under 'integer', a missing or fractional value is a TypeError, and that is the only failure. |
| EndpointTs.TryParseValue | src/endpoint.ts:46-50 | A number is returned as is under a non-'integer' type. Under 'integer' it succeeds exactly when the number is integral or infinite. Failures are TypeErrors. |
| EndpointTs.TryParseInclusion | src/endpoint.ts:52-61 | Succeeds exactly on a boolean, 'true' or 'false'. A boolean comes back unchanged and a string maps to (s == 'true'). Anything else is a TypeError. |
| EndpointTs.Parse | src/endpoint.ts:63-68 | Succeeds exactly when both tries succeed. It keeps a number value and always reports `included` true. |
| EndpointTs.Endpoint.Init | src/endpoint.ts:3-4 | A fresh endpoint has v = 0 and k = true. |
| EndpointTs.Endpoint.SetValue | src/endpoint.ts:23-30 | Stores the coerced number. On a value that cannot be coerced it throws TypeError and leaves `v` unchanged. `k` is never touched. |
| EndpointTs.Endpoint.SetIncluded | src/endpoint.ts:36-38 | Stores whatever it is given, unchecked, and leaves `v` unchanged. |
| EndpointTs.Endpoint.New | src/endpoint.ts:6-16 | Succeeds and fails exactly as `Construct`, with a fresh object holding its fields. |
| EndpointLegacy.CheckedValue | src/endpoint.js:38-44 | The value setter's check (isInt or isFloat) accepts exactly the non-NaN numbers and keeps them unchanged. |
| EndpointLegacy.CheckedInclusion | src/endpoint.js:24-30 | The included setter's check accepts exactly booleans. |
| EndpointLegacy.Construct | src/endpoint.js:5-17 | Succeeds exactly when each truthy field passes its setter. A number value is kept, a falsy one gives 0, and `included` is true exactly when the config's is truthy. |
| EndpointLegacy.Endpoint.Init | src/endpoint.js:6-7 | A fresh endpoint has v = 0 and i = false. |
| EndpointLegacy.Endpoint.SetIncluded | src/endpoint.js:24-30 | Stores a boolean. Anything else is a TypeError with `i` unchanged. `v` is kept. |
| EndpointLegacy.Endpoint.SetValue | src/endpoint.js:38-44 | Stores a number. Anything else is a TypeError with `v` unchanged. `i` is kept. |
| EndpointLegacy.Endpoint.New | src/endpoint.js:5-17 | Agrees with `Construct`, with a fresh object. |
| EndpointUmd.Construct | src/js/endpoint.js:21-33 | Succeeds exactly when the truthy fields pass the setters. A truthy value is stored as its number (`true` as 1); a falsy one leaves the initial 0. `included` is true exactly when the config's is truthy. |
| EndpointUmd.Endpoint.Init | src/js/endpoint.js:22-23 | A fresh endpoint has v = 0 and k = false. |
| EndpointUmd.Endpoint.SetIncluded | src/js/endpoint.js:40-46 | Stores a boolean. Anything else is a TypeError with `k` unchanged. |
| EndpointUmd.Endpoint.SetValue | src/js/endpoint.js:54-61 | Stores getNumber's number, so a number is stored unchanged. Anything else is a TypeError with `v` unchanged. |
| EndpointUmd.Endpoint.New | src/js/endpoint.js:21-33 | Agrees with `Construct`, with a fresh object. |
| IntervalTs.DefaultFrom | src/intervals.ts:33-36 | The default lower endpoint is what `new Endpoint({value: -Infinity, included: false})` yields, which is −∞ included. |
| IntervalTs.DefaultTo | src/intervals.ts:27-30 | The default upper endpoint is what `new Endpoint({value: +Infinity, included: false})` yields, which is +∞ included. |
| IntervalTs.Construct | src/intervals.ts:32-50 | A truthy `type` must be 'integer' or 'float' (otherwise a plain Error). The type defaults to float. `from`/`to` are stored verbatim when given, otherwise the defaults apply. |
| IntervalTs.FreshIsWholeLine | src/intervals.ts:32-50 | `new Interval()` is the float line (−∞, +∞), closed at both infinities, and is neither empty nor bounded. |
| IntervalTs.Empty | src/intervals.ts:131-143 | Interval.Empty's fields are what its config builds: (0,0) open, float, with no member, and they classify as empty. The object itself has no getters (see `IntervalTs.StaticObject`). |
| IntervalTs.R | src/intervals.ts:150-162 | R is what its config builds, and its members are exactly the finite numbers. |
| IntervalTs.Z | src/intervals.ts:169-181 | Z is what its config builds, and its members are exactly the finite integers. |
| IntervalTs.N | src/intervals.ts:188-200 | N's fields are what its config builds, classify as open, and hold exactly the integers above 0. The object itself has no getters. |
| IntervalTs.NN | src/intervals.ts:207-219 | NN's fields are what its config builds, classify as left-closed, and hold exactly the integers from 0 up. The object itself has no getters. |
| IntervalTs.StaticObject | src/intervals.classification.js:2-6 | The object a static getter returns reads the interval's fields, but every classification getter on it reads undefined, which is falsy: `__extends` copies the base-class object onto the subclass. |
| IntervalTs.StaticGettersReadUndefined | src/intervals.classification.ts:4 | The fields of Empty, N and NN classify as empty, open and left-closed, yet `Interval.Empty.isEmpty`, `Interval.N.isOpen` and `Interval.NN.isLeftClosed` do not hold. |
| IntervalTs.Interval.Init | src/intervals.ts:10-36 | A fresh object is float with the default endpoints. |
| IntervalTs.Interval.SetType | src/intervals.ts:57-63 | Stores 'integer' or 'float'. Anything else throws a plain Error with `t` unchanged. `l` and `r` are kept. |
| IntervalTs.Interval.SetFrom | src/intervals.ts:69-71 | Stores the endpoint verbatim and changes nothing else. |
| IntervalTs.Interval.SetTo | src/intervals.ts:77-79 | Stores the endpoint verbatim and changes nothing else. |
| IntervalTs.Interval.Clear | src/intervals.ts:85-94 | The endpoints become what `Endpoint.parse` gives for ∓∞. That is the closed whole line: not empty, not bounded. The type is kept. |
| IntervalTs.Interval.New | src/intervals.ts:32-50 | Agrees with `Construct`, with a fresh object. |
| IntervalUmd.ParseEndpoint | src/js/intervals.js:179-184 | Succeeds exactly when tryParseInclusion and tryParseValue do. The parsed inclusion and a number value are kept. An undefined value gives 0. Failures are TypeErrors. |
| IntervalUmd.ParseEndpointOfSpec | src/js/intervals.js:162-184 | Parsing `{value, included}` of any endpoint gives that endpoint back. |
| IntervalUmd.DefaultFrom | src/js/intervals.js:40-43 | The default lower endpoint is what `new Endpoint({value: -Infinity, included: false})` yields, which is −∞ open. |
| IntervalUmd.DefaultTo | src/js/intervals.js:49-52 | The default upper endpoint is +∞ open, as the Endpoint constructor yields. |
| IntervalUmd.ParseTo | src/js/intervals.js:222-232 | The `to` setter's outcome: parseEndpoint's endpoint, or its error re-wrapped as a TypeError with the cause as `inner`. |
| IntervalUmd.Construct | src/js/intervals.js:28-65 | A truthy `type` must be 'integer' or 'float', else a plain Error. `from`/`to` go through parseEndpoint, else the open defaults apply. A failing `from` throws parseEndpoint's own TypeError; a failing `to` throws a TypeError wrapping it as `inner` (the setters at src/js/intervals.js:197-205 and 222-230). The `endpoints` key is ignored. |
| IntervalUmd.FreshIsOpenLine | src/js/intervals.js:28-65 | `new Interval()` is the open float line, whose members are the finite numbers. |
| IntervalUmd.Empty | src/js/intervals.js:91-104 | Interval.empty is what its config builds: (0,0) open, float, with no member. |
| IntervalUmd.Interval.Init | src/js/intervals.js:34-52 | A fresh object is float, −∞ open, +∞ open. |
| IntervalUmd.Interval.SetType | src/js/intervals.js:147-153 | Stores 'integer' or 'float'. Anything else throws a plain Error with `t` unchanged. |
| IntervalUmd.Interval.SetFrom | src/js/intervals.js:197-208 | Stores the parsed endpoint. On a parse error it rethrows the raw error and keeps `l`. |
| IntervalUmd.Interval.SetTo | src/js/intervals.js:222-232 | Stores the parsed endpoint. On a parse error it throws the re-wrapped error and keeps `r`. |
| IntervalUmd.Interval.Clear | src/js/intervals.js:238-247 | Restores −∞ open and +∞ open, which is open, not empty and unbounded. The type is kept. |
| IntervalUmd.Interval.New | src/js/intervals.js:28-65 | Agrees with `Construct`, with a fresh object. |
| IntervalLegacy.IsInfinite | src/utils.js:61-63 | isInfinite holds exactly on −∞ and +∞. |
| IntervalLegacy.IsInt | src/utils.js:51-53 | isInt holds only on numbers: on every infinity, and on a finite number exactly when it is integral. |
| IntervalLegacy.NumberClasses | src/interval.js:70-72 | Every number is isInt or isFloat, nothing else is either, and only the infinities are both. |
| IntervalLegacy.IsValidValueType | src/interval.js:57-73 | For either type the check accepts exactly the non-NaN numbers, fractional ones included. |
| IntervalLegacy.Direction | src/interval.js:96-100 | Accepts exactly 0 and 1. Any other number is a RangeError, and a non-number is a TypeError. |
| IntervalLegacy.WithEndPoint | src/interval.js:84-107 | Checks, in order: value (TypeError), then included (undefined → false, any other non-boolean → TypeError), then direction. On success only `ep[direction]` is replaced. |
| IntervalLegacy.ItemArguments | src/interval.js:196-201 | An object with a defined `value` passes (value, included \|\| false). A bare number passes (number, true). Reading `.value` of null is a TypeError. |
| IntervalLegacy.AddItems | src/interval.js:195-202 | The constructor's loop succeeds exactly when every remaining entry reads as a number value and a boolean inclusion. Entry j then writes `ep[j]` with exactly what it reads, and the entries before the loop's start are kept. Its failures are TypeErrors. |
| IntervalLegacy.Defaults | src/interval.js:171-180 | The default pair is what the two `new Endpoint` calls yield: −∞ open and +∞ open. |
| IntervalLegacy.Construct | src/interval.js:159-205 | The type is checked first. Without `endpoints` the open defaults remain. After a valid type, a non-array `endpoints`, or one whose length is not 2, is a TypeError. A two-entry array succeeds exactly when both entries read as a number and a boolean, and then `from` and `to` are exactly what entries 0 and 1 read. |
| IntervalLegacy.ConstructReadsPair | src/interval.js:186-203 | `endpoints: [from, to]` of endpoint objects comes back exactly as the interval's endpoints. |
| IntervalLegacy.ConstructBareValues | src/interval.js:195-201 | Bare numbers become closed endpoints, and a null entry is a TypeError. |
| IntervalLegacy.FreshIsOpenLine | src/interval.js:159-205 | `new Interval()` is the open float line, whose members are the finite numbers. |
| IntervalLegacy.Empty | src/interval.js:226-238 | Interval.empty is what its config builds: (0,0) open, float, with no member. |
| IntervalLegacy.Interval.Init | src/interval.js:165-180 | A fresh object is float, with a fresh two-element array holding the default pair. |
| IntervalLegacy.Interval.AddEndPoint | src/interval.js:84-107 | Writes the array in place exactly as `WithEndPoint` says, or throws and writes nothing. |
| IntervalLegacy.Interval.SetType | src/interval.js:338-344 | Stores 'integer' or 'float'. Anything else throws a plain Error with `t` unchanged. |
| IntervalLegacy.SetterArguments | src/interval.js:358-361 | Reading `value.value` and `value.included` throws a TypeError exactly on null and undefined. An object gives its two properties. Any other primitive, a bare number included, reads both as undefined. |
| IntervalLegacy.Interval.SetFrom | src/interval.js:358-367 | Runs addEndPoint at direction 0 on what the argument reads. Every failure, including the property read's, is re-wrapped with the cause as `inner` and leaves `ep` unchanged. A bare primitive argument always ends in a re-wrapped TypeError. On success `ep[1]` is untouched. |
| IntervalLegacy.Interval.SetTo | src/interval.js:381-390 | Runs addEndPoint at direction 1 on what the argument reads. Every failure is re-wrapped with the cause as `inner` and leaves `ep` unchanged. A bare primitive argument always ends in a re-wrapped TypeError. On success `ep[0]` is untouched. |
| IntervalLegacy.Interval.Clear | src/interval.js:396-407 | Installs a fresh default array: the open whole line. The type is kept. |
| IntervalLegacy.Interval.New | src/interval.js:159-205 | The constructor, with its loop over the two `endpoints` entries, agrees with `Construct`. |
| Classification.IsLeftBounded | src/intervals.classification.ts:52-54 | isLeftBounded holds exactly when `from.value` is not −∞. |
| Classification.IsRightBounded | src/intervals.classification.ts:77-79 | isRightBounded holds exactly when `to.value` is not +∞. |
| Classification.IsBounded | src/intervals.classification.ts:9-12 | isBounded ⇔ isLeftBounded ∧ isRightBounded. Finite ends make an interval bounded. A bounded, non-reversed interval has finite ends. |
| Classification.IsClosed | src/intervals.classification.ts:18-20 | isClosed ⇔ isLeftClosed ∧ isRightClosed. |
| Classification.IsOpen | src/intervals.classification.ts:68-70 | isOpen ⇔ neither end is included, so no interval is both open and closed. |
| Classification.IsDegenerate | src/intervals.classification.ts:26-30 | Equal finite values: degenerate ⇔ closed. A float interval: degenerate ⇔ closed with equal values. An integer unit gap: degenerate ⇔ exactly one end included. |
| Classification.IsEmpty | src/intervals.classification.ts:36-45 | Reversed values are empty. Equal values: empty ⇔ not closed. A float interval: empty ⇔ reversed or (equal and not closed). An integer unit gap: empty ⇔ open. |
| Classification.EmptyExcludesDegenerate | src/intervals.classification.ts:22-45 | With a finite lower value, no interval is both empty and degenerate. |
| Classification.MinusInfinityEmptyAndDegenerate | src/intervals.classification.ts:26-45 | The integer (−∞, −∞] is both empty and degenerate, because −∞ + 1 = −∞. |
| Classification.ClassificationExamples | test/intervals.classification.test.js:8-37 | The tested cases hold: [2,1] is empty, and the integer (1,2] is degenerate. Beside them: the integer (1,2] is not empty, the float (1,2] is not degenerate, and the integer (1,2) is empty. |
| Membership.Within | src/intervals.ts:107-115 | isValueWithinInterval lies between the end values. It holds strictly inside, and at an end only when that end is included. |
| Membership.EmptyHasNoMember | src/intervals.classification.ts:36-45 | An interval isEmpty classifies as empty has no member, given integer intervals hold integral values. |
| Membership.NonEmptyHasMember | src/intervals.classification.ts:36-45 | A well-typed interval that isEmpty does not classify as empty has a member. |
| Membership.EmptyIffNoMember | src/intervals.classification.ts:36-45 | For well-typed intervals, isEmpty ⇔ no member. |
| Membership.DegenerateHasOneMember | src/intervals.classification.ts:22-30 | A degenerate well-typed interval with a finite lower value has exactly one member ("represents a single value"). |
| Membership.LeftClosedIsMinimum | src/intervals.classification.ts:60-62 | `Classification.IsLeftClosed` (the isLeftClosed getter, `from.included`) means "has a minimum": on a non-empty well-typed interval it holds exactly when `from.value` is a member, and every member is at least `from.value`. |
| Membership.RightClosedIsMaximum | src/intervals.classification.ts:85-87 | `Classification.IsRightClosed` (the isRightClosed getter, `to.included`) means "has a maximum": on a non-empty well-typed interval it holds exactly when `to.value` is a member, and every member is at most `to.value`. |
| Membership.Contains | src/intervals.ts:96-105 | NaN, or a probe whose integer-ness differs from the type in either direction, is a TypeError. On a float interval a number is accepted exactly when it is not integral. Otherwise the answer is membership. |
| Membership.ContainsNeverOnEmpty | src/intervals.ts:96-115 | `contains` never answers true on a well-typed interval isEmpty classifies as empty. |
| Membership.ContainsExamples | test/intervals.test.js:68-129 | Closed integer [−5,5] contains −5, 1 and 5 but not −6 or 6. Open (−5,5) contains only 1 of these. |
| Membership.Test | src/interval.js:262-268 | The instance test is true exactly when the interval is not empty and the value lies within it. |
| Membership.TestIsMembership | src/js/intervals.js:129-135 | On a well-typed interval, `test` is membership for float intervals and for integral probes. |
| Membership.TestExamples | test/specs/interval.js:64-126 | The open and closed integer [−5,5] cases of the spec file. |
| Membership.StaticTest | src/interval.js:416-428 | Every failure is a TypeError, and only a number or boolean probe can pass. On an integer interval a number passes exactly when it is finite and integral, since `isFloat(Infinity)` holds. On a float interval a number gets the instance `test`'s answer. |
| Membership.IsFloatValue | src/utils.js:34-36 | isFloat holds only on numbers: on both infinities, and on a finite number exactly when it is not integral. |
| Membership.StaticTestIsMembership | src/js/intervals.js:267-283 | On a well-typed interval, every answer of `Interval.test` is membership. |
| Membership.Diameter | src/interval.js:214-224 | 0 when empty, +∞ when non-empty and unbounded, and `to − from` of the finite ends otherwise. |
| Membership.DiameterBoundsMembers | src/js/intervals.js:79-89 | Any two finite values that pass `test` are at most the diameter apart. |
| Membership.Midpoint | src/interval.js:240-247 | Defined exactly for non-empty bounded intervals. It is then `(from + to) / 2` of the finite ends, and it always passes `test`. |
| Membership.Radius | src/interval.js:249-256 | Non-negative, 0 when empty or unbounded, and half the diameter. |
| Membership.MembersWithinRadius | src/js/intervals.js:106-122 | Every finite value that passes `test` lies within the radius of the midpoint. |
| Membership.MeasuresOfClosed | src/interval.js:214-256 | On a closed, bounded, non-empty interval both ends pass `test`, the diameter is their distance and the largest distance between passing values, and the midpoint lies one radius from each end. |
| Operators.Build | src/intervals.ts:39-49 | `new Interval(config)` of an operator's config equals each revision's constructor. TypeScript and src/js read `from`/`to` and give an `endpoints` config the default line. src/interval.js reads only `endpoints`. |
| Operators.NewEndpoint | src/intervals.operators.ts:107-115 | An endpoint built from `{value, included}` agrees with each revision's Endpoint constructor. The TypeScript one reports included regardless. |
| Operators.EmptyOf | src/intervals.ts:131-143 | The fields of each revision's empty interval are (0,0) open float, and they classify as empty. In TypeScript the object is the static one, without getters. |
| Operators.Complementary | src/intervals.operators.ts:11-86 | Empty input gives one piece, in an array only in TypeScript. Non-empty bounded input gives two pieces. Other input gives one bare piece. Every piece keeps the type. |
| Operators.ComplementaryOfObject | src/intervals.operators.ts:11-86 | On a subclass object the TypeScript complementary is `Complementary`. On a static interval both guards read undefined, so the result is the one half-line on the far side of `from` (or of `to` when `from` is −∞), whatever the fields are. |
| Operators.ComplementIsSetComplement | src/interval.js:721-789 | In TypeScript and src/interval.js, a finite value of the type is in some piece ⇔ it is not a member of the interval. |
| Operators.EmptyComplement | src/intervals.operators.ts:13-29 | The complement of an empty interval covers every finite value of the type, none of which is a member. |
| Operators.BoundedComplement | src/intervals.operators.ts:32-56 | For a non-empty bounded interval, the two pieces cover a finite value of the type ⇔ it is not a member. |
| Operators.OneSidedComplement | src/intervals.operators.ts:58-85 | For a non-empty half-line, the one piece covers a finite value of the type ⇔ it is not a member. |
| Operators.UmdComplementIsWholeLine | src/js/intervals.operators.js:23-102 | In src/js every piece of the complement is the open whole line of the type. |
| Operators.ComplementTwiceOneSided | src/intervals.operators.ts:58-85 | A half-line whose infinite end is open returns to itself after two complements. |
| Operators.ComplementOfLineIsEmpty | src/intervals.operators.ts:58-85 | The complement of a whole line has from = to = +∞ with `to` open, so it is empty. |
| Operators.Intersects | src/intervals.operators.ts:88-95 | True only when both arguments are non-empty. True for overlapping interiors. False for values strictly apart. |
| Operators.IntersectsObjects | src/intervals.operators.ts:88-95 | On two subclass objects it is `Intersects`. On static intervals the `!isEmpty` guards always pass, and only the d1/d2 end test decides. |
| Operators.CommonMemberIntersects | src/interval.js:811-817 | Well-typed intervals sharing a finite member always intersect: there are no false negatives. |
| Operators.IntersectsIsAsymmetric | src/intervals.operators.js:85-90 | intersects((5,10),(0,5)) is true, intersects((0,5),(5,10)) is false, and the two share no member. |
| Operators.BinaryIntersection | src/intervals.operators.ts:97-123 | A type mismatch is a TypeError. Non-intersecting input gives the empty interval. Otherwise `from` is the larger lower endpoint and `to` is the other operand's `to`. On a tie of lower values both ends come from `a` with the flags ANDed, through each revision's Endpoint. In src/js the result is the open whole line. |
| Operators.GetUnionFromIncluded | src/intervals.operators.ts:147-159 | The result is included exactly when an operand whose value is the smaller (or tied) lower value is included. |
| Operators.GetUnionFrom | src/intervals.operators.ts:147-166 | The value is the smaller lower value. Outside TypeScript, x satisfies the result ⇔ x satisfies either argument as a lower bound. In TypeScript the result is included regardless. |
| Operators.GetUnionToIncluded | src/intervals.operators.ts:168-180 | The result is included exactly when an operand whose value is the larger (or tied) upper value is included. |
| Operators.GetUnionTo | src/intervals.operators.ts:168-187 | The value is the larger upper value. Outside TypeScript, x satisfies the result ⇔ x satisfies either argument as an upper bound. |
| Operators.UnionEndpointsCommute | src/js/intervals.operators.js:188-228 | getUnionFrom and getUnionTo do not depend on argument order. |
| Operators.BinaryUnion | src/intervals.operators.ts:189-211 | A type mismatch is a TypeError. Non-intersecting input gives [a, b]. Otherwise the result is one interval: the closed line (TypeScript), the open line (src/js), or `from` by min with `to` from the later-starting operand (src/interval.js). In src/interval.js a tie of lower values takes both ends from `a` with the flags ORed. |
| Operators.Chain | src/interval.js:847-866 | From argument k on, the loop yields the neighbours' intersection (its TypeError, or the interval) at the argument where it stops: the first whose neighbours throw or meet in an empty interval, else the last. So mixed-type neighbours at k throw, a run of non-empty meets ends in the last pair's intersection, and an empty result is some neighbours' intersection. Arguments of one type never throw. |
| Operators.ChainIsFirstStop | src/interval.js:851-863 | The loop stops at one argument only, so the chain's result is the neighbours' intersection at any argument where it stops. |
| Operators.IntersectionOf | src/intervals.operators.ts:125-145 | No argument gives undefined. In TypeScript any argument gives a TypeError, through binaryIntersection(null, first). Elsewhere one argument gives undefined; two give exactly their binary intersection, TypeError included; more give the neighbours' intersection where the loop first stops (an error or empty meet), else the last pair's. |
| Operators.Intersection | src/js/intervals.operators.js:159-178 | The stack loop, with `current` starting at null or undefined, returns exactly `IntersectionOf`. |
| Operators.ThreeArguments | src/interval.js:847-866 | intersection(A,B,C) = B∩C whenever A∩B is not empty. |
| Operators.KeepStep | src/intervals.operators.ts:241-243 | Appending an interval that met no kept one preserves the loop invariant. |
| Operators.MergeStep | src/intervals.operators.ts:229-238 | Splicing out a kept interval and pushing its merge preserves the loop invariant. |
| Operators.MergeHoldsBoth | src/intervals.operators.ts:203-208 | Outside src/interval.js the pair union of meeting intervals is one interval holding every member of either. |
| Operators.Union | src/intervals.operators.ts:218-247 | Fails (TypeError) exactly when two arguments differ in type. The output is pairwise non-intersecting for i < j, no longer than the input, non-empty for non-empty input, and of the input type. Pairwise-separated input comes back unchanged, so no arguments give []. Outside src/interval.js every member of every argument is a member of some output interval. |
| Findings.LaterLower | src/intervals.operators.ts:107-111 | x satisfies the later lower endpoint ⇔ it satisfies both. |
| Findings.EarlierUpper | src/intervals.operators.ts:112-115 | x satisfies the earlier upper endpoint ⇔ it satisfies both. |
| Findings.Meet | src/intervals.operators.ts:97-123 | The corrected intersection keeps the type and well-typedness. |
| Findings.MeetIsIntersection | src/intervals.operators.ts:97-123 | The members of Meet are exactly the common members. |
| Findings.MeetOf | src/interval.js:819-845 | A type mismatch is a TypeError. Otherwise the result's members are exactly the common members. |
| Findings.IntersectionKeepsWrongUpperEnd | src/intervals.operators.ts:112-115 | [0,10] ∩ [2,3] comes out as [2,10], which holds 5. |
| Findings.IntersectionTieKeepsWrongUpperEnd | src/intervals.operators.ts:107-115 | On a tie of lower values, [0,10] ∩ [0,3] comes out as [0,10], which holds 5. |
| Findings.TieIntersectionIsFirst | src/intervals.operators.ts:107-115 | On a tie of lower values with closed ends, binaryIntersection returns its first argument whole. |
| Findings.UmdIntersectionIsWholeLine | src/js/intervals.operators.js:153-156 | In src/js, [0,1] ∩ [0.5,2] comes out holding 5, which is not in [0,1]. |
| Findings.OverlapsIffCommonMember | src/intervals.operators.ts:88-95 | The corrected test holds ⇔ the intervals share a member. |
| Findings.OverlapsIsSymmetric | src/intervals.operators.ts:88-95 | The corrected test is symmetric. |
| Findings.Join | src/intervals.operators.ts:189-211 | The corrected union's ends are the min and the max of the operands' ends. |
| Findings.JoinIsUnion | src/interval.js:876-904 | Join holds every member of either operand. When the operands share a member it holds nothing else. |
| Findings.LegacyUnionKeepsWrongUpperEnd | src/interval.js:887-896 | [0,10] ∪ [2,3] comes out as [0,3] and loses 5. |
| Findings.UnionIsWholeLine | src/intervals.operators.ts:203-208 | [0,1] ∪ [1,2] comes out as the whole line in TypeScript and src/js. |
| Findings.UmdComplementOverlapsInterval | src/js/intervals.operators.js:41-101 | In src/js the complement of [0,1] holds 0.5. |
| Findings.MeetAll | src/interval.js:847-866 | The corrected n-ary intersection fails exactly on mixed types, is undefined only for no argument, and keeps the type. |
| Findings.MeetAllIsIntersection | src/interval.js:847-866 | Its members are exactly the values in every argument. |
| Findings.IntersectionPairsNeighbours | src/interval.js:851-863 | [0,1] ∩ [0.5,10] ∩ [5,10] comes out as [5,10], which holds 5, outside [0,1]. TypeScript throws for it. |
| Findings.MeetAllOfNeighbours | src/interval.js:851-863 | The corrected intersection of the same arguments does not hold 5. |
| Findings.ContainsCorrected | src/intervals.ts:96-105 | Only NaN and fractional probes on integer intervals are rejected. Every answer is membership. |
| Findings.ContainsRejectsWholeNumbersOnFloats | src/intervals.ts:100 | R.contains(1) throws although 1 is in R. The corrected probe answers true. |
| Findings.ConstructCorrected | src/endpoint.ts:6-16 | Same outcome and value as the constructor, but a given `included` is stored. |
| Findings.ConstructCorrectedRoundTrip | src/endpoint.ts:6-16 | The corrected constructor reads back every endpoint. |
| Findings.EndpointDropsFalseInclusion | src/endpoint.ts:11-13 | `new Endpoint({value: 1, included: false})` reports included. The corrected one does not. |
| Findings.StaticEmptyComplementIsHalfLine | src/intervals.operators.ts:11-86 | In TypeScript `complementary(Interval.Empty)` is (−∞,0], which misses 1, a value outside the empty set. |
| Findings.StaticEmptyMeetsInterval | src/intervals.operators.ts:88-95 | In TypeScript `intersects(Interval.Empty, [−1,1])` is true, while the empty fields meet nothing. |
| Findings.ClassifiedEmptyIsEmpty | src/intervals.ts:131-143 | Built as a subclass object, the empty interval's complement covers every finite value, and it intersects nothing. |
| Findings.FractionalEndsOnIntegerInterval | src/interval.js:70-72 | addEndPoint accepts 1.5 and 2.5 as the ends of an integer interval, writing (1.5, 2.5). |
| Findings.FractionalIntegerIntervalDisagrees | src/intervals.classification.ts:42-43 | The integer (1.5, 2.5) is not well typed. isEmpty classifies it as empty, yet the integer 2 lies within it and `contains(2)` answers true. |
| Findings.IsValidValueTypeCorrected | src/interval.js:57-73 | The corrected check accepts a number exactly when it is integral or infinite, or the interval is float. It never accepts what the original rejects. |
| Findings.CorrectedCheckKeepsWellTyped | src/interval.js:84-107 | Behind the corrected check, every successful addEndPoint keeps an integer interval's ends integral. |

## Left out

- **String coercion.** getNumber's conversion of strings ('3', 'INF', '∞') and isFloatString are not modelled: every string reads as "no number". The numeric helper files (src/Numbers.ts, src/numbers.js, src/utils.js, src/js/utils.js) are modelled only through `Numbers.GetNumber`, `Numbers.NumberValue`, `Numbers.IsInteger`, `Membership.IsFloatValue`, `IntervalLegacy.IsInt` and `IntervalLegacy.IsInfinite`.
- **String parsers and stringifiers**, `toString`, `toJson` and `Interval.parse` (src/parsers, src/js/parsers, src/interval.js:109-136, 274-326, 434-617). They are driven by regular expressions and by number formatting.
- **IEEE-754 rounding** in `(from + to) / 2`, `|to − from|` and `from + 1`. Numbers are reals. Only the NaN of ∞ − ∞ is kept.
- **Plumbing.** The UMD wrappers, `noConflict`, `Interval.extend`/`Factory` (which mutate the prototype) and `module.exports` are not modelled.
- **Instance forms** of the operators (`prototype.complementary`, `prototype.intersection`, `prototype.union` and the `and`/`or`/`nor` aliases) are not modelled separately. They call the static operators with the receiver prepended.
- **Endpoint aliasing.** The TypeScript `from`/`to` setters store the endpoint object itself, so two intervals may share one. The model stores endpoint values.
- **Shared static objects.** In the TypeScript revision `__extends` copies each static interval once, so `Interval.Empty` is one shared object, and a setter applied to it changes it for every later reader. The model returns a fresh value each time.
- Operators.Union: takes intervals that answer their getters. In TypeScript a static interval among the arguments reads `isEmpty` as undefined, so union merges it with any interval that `Operators.IntersectsObjects` says it meets. That is shown through `Findings.StaticEmptyMeetsInterval`, but `Union` is not modelled over objects.
- Operators.Union: that every member of an argument stays a member of some output interval is stated outside src/interval.js only. There a merge can drop members: the pair union keeps the wrong upper end (`Findings.LegacyUnionKeepsWrongUpperEnd`).
- Membership.EmptyHasNoMember: stated for well-typed intervals only. The TypeScript `from`/`to` setters store any number, and src/interval.js admits fractions into integer intervals. On such an interval isEmpty and membership disagree (`Findings.FractionalIntegerIntervalDisagrees`).
- Membership.NonEmptyHasMember: stated for well-typed intervals only, for the same reason.
- Membership.EmptyIffNoMember: stated for well-typed intervals only, for the same reason.
- Membership.DegenerateHasOneMember: stated for well-typed intervals only, for the same reason.
- Membership.ContainsNeverOnEmpty: stated for well-typed intervals only, for the same reason.
- Membership.TestIsMembership: stated for well-typed intervals only, for the same reason.
- Membership.StaticTestIsMembership: stated for well-typed intervals only, for the same reason.
- Operators.ComplementIsSetComplement: stated for well-typed intervals only, for the same reason.
- Operators.CommonMemberIntersects: stated for well-typed intervals only, for the same reason.
- IntervalTs.Construct: requires the config's `from`/`to` to be literals with a number `value` and a boolean `included`, as the TypeScript setters are typed. Untyped endpoint objects are not modelled there.
- Membership.Contains: requires a number or NaN probe, as `contains(value: number)` is typed. Other JavaScript values are not modelled.
- Membership.Test: takes a non-NaN number, as the instance `test` is used. Comparisons against strings are not modelled.
- **Classification with non-boolean `included`.** The classification getters read `included` as a boolean. A TypeScript endpoint whose `included` was set to a non-boolean truthy value is classified by the model as if it were `true`.
- **Where the code and the library's description differ**, the model follows the code. Examples: the TypeScript defaults and `clear` give the closed line, because the TypeScript Endpoint drops `included: false`; and the operators' results in TypeScript and src/js come from each constructor's reading of the `endpoints` key.

## Findings

| source | as written | input that shows it | evidently intended | confidence | as-written member | corrected member |
|---|---|---|---|---|---|---|
| src/intervals.operators.ts:112-115 | binaryIntersection takes `to` from the operand that does not supply `from`, and on a tie takes `a.to` (also src/interval.js:829-838) | [0,10] ∩ [2,3] gives [2,10]; [0,10] ∩ [0,3] gives [0,10] | the earlier upper endpoint: [2,3] | high, not executed | Findings.IntersectionKeepsWrongUpperEnd, Findings.IntersectionTieKeepsWrongUpperEnd | Findings.MeetIsIntersection |
| src/js/intervals.operators.js:153-156 | the intersecting case is built with `endpoints`, which the src/js constructor ignores | [0,1] ∩ [0.5,2] gives (−∞,+∞), which holds 5 | [0.5,1] | high, not executed | Findings.UmdIntersectionIsWholeLine | Findings.MeetIsIntersection |
| src/intervals.operators.ts:88-95 | intersects fires when d1 = 0 at open touching ends, because `(d1 <= 0) !== (d2 <= 0)` | intersects((5,10),(0,5)) is true, and the reverse is false | false both ways: no common member | high, not executed | Operators.IntersectsIsAsymmetric | Findings.OverlapsIffCommonMember |
| src/interval.js:887-896 | binary union takes `to` from the operand that starts later | [0,10] ∪ [2,3] gives [0,3] | [0,10] | high, not executed | Findings.LegacyUnionKeepsWrongUpperEnd | Findings.JoinIsUnion |
| src/intervals.operators.ts:203-208 | the merged union is built with `endpoints`, which the TypeScript and src/js constructors ignore | [0,1] ∪ [1,2] gives (−∞,+∞) | [0,2] | high, not executed | Findings.UnionIsWholeLine | Findings.JoinIsUnion |
| src/js/intervals.operators.js:41-101 | the complement pieces are built with `endpoints`, which the src/js constructor ignores | the complement of [0,1] is (−∞,+∞) and holds 0.5 | (−∞,0) and (1,+∞) | high, not executed | Findings.UmdComplementOverlapsInterval | Operators.ComplementIsSetComplement |
| src/interval.js:851-863 | the loop sets `result = current`, so it intersects neighbouring arguments; TypeScript starts `current` at null and always throws | [0,1] ∩ [0.5,10] ∩ [5,10] gives [5,10] | the empty set: a left fold of the binary intersection | high, not executed | Findings.IntersectionPairsNeighbours | Findings.MeetAllIsIntersection |
| src/intervals.ts:100 | `contains` rejects an integer-ness mismatch in both directions | R.contains(1) throws TypeError | true: only fractional probes of integer intervals are invalid, as in `Interval.test` | medium, not executed | Findings.ContainsRejectsWholeNumbersOnFloats | Findings.ContainsCorrected |
| src/endpoint.ts:11-13 | only a truthy `included` is assigned over the default `true` | `new Endpoint({value: 1, included: false}).included` is true | false | high, not executed | Findings.EndpointDropsFalseInclusion | Findings.ConstructCorrectedRoundTrip |
| src/intervals.ts:131-219 | the static intervals are built as objects of the base class, which has no classification getters (`__extends` in src/intervals.classification.js:2-6 copies them onto the subclass) | `complementary(Interval.Empty)` gives (−∞,0]; `intersects(Interval.Empty, [−1,1])` is true, so union merges them | the whole line; false | high, not executed | Findings.StaticEmptyComplementIsHalfLine, Findings.StaticEmptyMeetsInterval | Findings.ClassifiedEmptyIsEmpty |
| src/interval.js:70-72 | `(isFloat(value) && (integer \|\| float))` holds for both tags, so integer intervals accept fractional ends | the integer (1.5, 2.5) is accepted; isEmpty says empty, yet 2 lies within it | fractions only on 'float' intervals | high, not executed | Findings.FractionalEndsOnIntegerInterval, Findings.FractionalIntegerIntervalDisagrees | Findings.CorrectedCheckKeepsWellTyped |
