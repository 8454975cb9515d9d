# Logging namespaces, verified

A Dafny model of the logging-namespace module of the `@webcraft/logging`
package (`packages/logging/src/namespace.ts`). A logging namespace is a
string without `,` (the separator of a list of namespaces held in one
string, `NAMESPACE_SEPARATOR`); its components are the pieces between `:`
characters (`NAMESPACE_COMPONENT_SEPARATOR`). The module offers three
runtime type guards over an untyped value and a split/join pair between a
namespace and its list of components. Everything in it is pure, so the
model is functions and lemmas.

- `js_builtins.dfy`, module `JsBuiltins`: the JavaScript features the module
  is built from. TypeScript's `unknown` is the datatype `Value`
  (`Str(s)` or `Other(tag)`, the tag being the `typeof` category), so the
  guards' `typeof value === 'string'` test is explicit. `Includes` is
  `String.prototype.includes` (a substring search from position 0), `Split`
  is `String.prototype.split` with a one-character separator (empty
  segments kept, `"".split(':')` is `[""]`) and `Join` is
  `Array.prototype.join` over strings (`[].join(':')` is `""`).
- `namespace.dfy`, module `LoggingNamespace`: the two separator constants,
  the guards `IsNamespace`, `IsNamespaceComponent`,
  `IsNamespaceCollection`, the conversions `NamespaceToComponentList` and
  `ComponentListToNamespace`, and the lemmas relating them.

Strings are `seq<char>`; both separators are single ASCII characters, so
the UTF-16 representation of JavaScript strings plays no part.

## Model

| member | source | states |
|---|---|---|
| JsBuiltins.TypeOf | packages/logging/src/namespace.ts:51 | `typeof v` is "string" exactly when `v` is a string; `typeof null` is "object" |
| JsBuiltins.Includes | packages/logging/src/namespace.ts:51 | `s.includes(t)` holds exactly when `t` occurs in `s` at some index (the empty string occurs everywhere) |
| JsBuiltins.IncludesChar | packages/logging/src/namespace.ts:67-68 | searching for a one-character string is the same as testing that character's membership |
| JsBuiltins.Split | packages/logging/src/namespace.ts:96 | `s.split(sep)` has one more segment than `s` has separators (so it is never empty) and no segment contains the separator |
| JsBuiltins.Join | packages/logging/src/namespace.ts:109 | `l.join(sep)` is "" for the empty list and starts with the first element otherwise |
| JsBuiltins.JoinSplit | packages/logging/src/namespace.ts:93-110 | joining the segments of `s.split(sep)` with `sep` gives back `s`, for every string |
| JsBuiltins.SplitJoin | packages/logging/src/namespace.ts:93-110 | splitting the join of a non-empty, separator-free list gives back the list, so split yields the maximal separator-free segments |
| JsBuiltins.SplitJoinEmpty | packages/logging/src/namespace.ts:93-110 | the empty list comes back from join-then-split as `[""]` |
| JsBuiltins.JoinSeparatorCount | packages/logging/src/namespace.ts:109 | joining `n` separator-free elements puts exactly `n - 1` separators in the result |
| JsBuiltins.JoinAvoids | packages/logging/src/namespace.ts:109 | a character other than the separator that no element contains does not appear in the join |
| JsBuiltins.SplitAvoids | packages/logging/src/namespace.ts:96 | a character absent from the string is absent from every segment |
| LoggingNamespace.IsNamespace | packages/logging/src/namespace.ts:50-52 | true exactly when the value is a string that contains no `,`; false for every non-string |
| LoggingNamespace.IsNamespaceComponent | packages/logging/src/namespace.ts:62-70 | true exactly when the value is a string containing neither `,` nor `:` |
| LoggingNamespace.IsNamespaceCollection | packages/logging/src/namespace.ts:80-84 | true exactly when the value is a string |
| LoggingNamespace.NamespaceToComponentList | packages/logging/src/namespace.ts:93-97 | the component list has one more element than the namespace has `:` (never empty) and no component contains `:` |
| LoggingNamespace.ComponentListToNamespace | packages/logging/src/namespace.ts:106-110 | joining no components gives "", otherwise the namespace starts with the first component |
| LoggingNamespace.ComponentIsNamespace | packages/logging/src/namespace.ts:50-70 | every value accepted by `isNamespaceComponent` is accepted by `isNamespace` |
| LoggingNamespace.NonStringsAreRejected | packages/logging/src/namespace.ts:50-84 | no non-string value passes any of the three guards |
| LoggingNamespace.IsNamespaceRejectsTestValues | packages/logging/tests/namespace.spec.ts:11-24 | `isNamespace` is false for a boolean, a number, an object, an array, a bigint, a symbol and a regular expression |
| LoggingNamespace.NamespaceRoundTrip | packages/logging/src/namespace.ts:93-110 | joining the components of any string with `:` gives back that string |
| LoggingNamespace.ComponentListRoundTrip | packages/logging/src/namespace.ts:93-110 | a non-empty list of `:`-free components survives join-then-split unchanged |
| LoggingNamespace.EmptyComponentListDoesNotRoundTrip | packages/logging/src/namespace.ts:93-110 | the empty component list comes back from join-then-split as `[""]` |
| LoggingNamespace.ComponentListSeparatorCount | packages/logging/src/namespace.ts:106-110 | joining `n` `:`-free components gives a namespace with `n - 1` colons |
| LoggingNamespace.ComponentsOfNamespace | packages/logging/src/namespace.ts:50-97 | every component of a valid namespace is a valid namespace component |
| LoggingNamespace.ComponentListMakesNamespace | packages/logging/src/namespace.ts:62-110 | joining valid namespace components gives a valid namespace, as the declared return type `Namespace` says |

## Left out

- scripts/lib/terminal.ts (the stream terminal): asynchronous stream plumbing over platform stdio; its ordering and cancellation rest on stream primitives that are not part of this model.
- scripts/install-pre-commit.ts: command-line glue (argument parsing, environment, coloured output).
- eslint.config.ts, vite.config.ts, templates/package/vite.config.ts: declarative build and lint configuration without behaviour.
- packages/core/src/types.ts: the `Distinct` branded type exists only at compile time.
- .github/scripts: continuous-integration scripts that call a REST API; not part of the namespace module.
- The TypeScript type aliases and the `value is T` narrowing of the guards are compile-time only; the model keeps the boolean result.
- JsBuiltins.Split: the optional `limit` argument of `split` (and its default cap of 2^32 - 1 segments) is not modelled, since the module never passes one and no string here reaches that size.
- JsBuiltins.Includes: the optional start position of `includes` is not modelled; the module always searches from position 0.
- JsBuiltins.Join: only arrays of strings are modelled; `join`'s conversion of `null`, `undefined` and non-string elements does not arise, since the parameter is typed as a list of strings.
