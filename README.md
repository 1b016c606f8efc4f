# zod-urlsearchparams: `parse` and `serialize`

A Dafny model of the two functions of `src/index.ts`. The library converts
between URL search parameters (`URLSearchParams`) and records described by a zod
object schema.

- `parse(schema, input)` folds the entries of the search parameters into a fresh
  object. Each entry overwrites its name, so the last occurrence of a name wins.
  The object then goes to the schema's validator `schema.parse`, and `parse`
  returns whatever the validator gives back.
- `serialize(schema, values, defaultValues)` builds fresh search parameters. It
  visits the record's properties with `for…in`, and for each own property it
  appends one entry per element when the field's schema is a `ZodArray`, and
  one entry `String(value)` otherwise. A name the shape lacks is treated like
  any non-array field. `defaultValues` is never read.

How the model represents things:

- `SearchParams` (search_params.dfy) is the multi-map: a sequence of
  `(name, value)` entries. It has `Keys`, `getAll` (`GetAll`), last-occurrence
  lookup (`LastIndex`, `LastValue`), and `Concat`, which appends lists of
  entries one after the other.
- Names are strings in the library. Definitions and lemmas that only compare
  names are stated for any name type `K`. The methods and the as-written
  definitions depend on particular names and use strings.
- `JsString` (js_string.dfy) holds the field values and JavaScript's `String()`
  (`Render`). `String()` is the identity on strings. An array renders the way
  `join(",")` does. Numbers, booleans, bigints, dates and objects are each a
  `Scalar` that carries its `String()` text.
- `Index` (index.dfy) models `src/index.ts` itself.
  - `Parse` is a method with the source's loop. The validator is a function
    parameter.
  - `Serialize` is a method with the source's two nested loops.
  - The record is the sequence of properties that `for…in` visits, in visiting
    order, each flagged by whether `Object.hasOwn` holds of it.
  - The schema shape maps each field name to its `_def.typeName`: either
    `ZodArray` or some other type name. `serialize` tells no other type names
    apart.
  - The specification functions are `ObjectOf` (for parse) and `Serialized`
    (for serialize). `ObjectOf` is the fold the loop performs, and
    `ObjectOfLastValue` ties it to last-occurrence lookup. `Serialized` is the
    concatenation of one block of entries per visited property. The lemmas
    state what the source promises about them.

## Model

| member | source | states |
|---|---|---|
| Index.Parse | src/index.ts:5-14 | the result is exactly the validator applied to `ObjectOf(input)`: the loop builds that object and nothing else is done to it |
| Index.ObjectOfLastValue | src/index.ts:9-12 | the fold agrees with last-occurrence lookup: a name is in the object exactly when it occurs in the input, and then holds the value of its last entry |
| Index.ObjectOfKeys | src/index.ts:9-12 | the object's names are exactly the input's names, none invented and none dropped |
| Index.ObjectOfLastWins | src/index.ts:10-11 | an entry that no later entry renames gives its name's value in the object (last occurrence wins) |
| Index.ObjectOfSnoc | src/index.ts:11 | appending one entry updates exactly its name to its value and leaves every other name as it was |
| Index.ObjectOfAppend | src/index.ts:10-12 | the object for `s + t` is the object for `s` overridden name by name by the object for `t` |
| Index.ObjectAsWrittenDropsProto | src/index.ts:9-11 | run as JavaScript on `{}`, the fold gives the intended object minus the `__proto__` name, and differs from it in nothing else |
| Index.ProtoEntryIsLost | src/index.ts:9-11 | for the query `__proto__=x` the name occurs in the input, yet the object as written is empty where the intended one is `{__proto__: "x"}` |
| Index.Serialize | src/index.ts:16-39 | starting from empty parameters, the two loops produce exactly `Serialized(shape, values)`; no postcondition mentions `defaultValues`, so the result does not depend on it |
| Index.ArrayEntries | src/index.ts:29-31 | an array field gets exactly one entry per element |
| Index.GetAllArrayEntries | src/index.ts:29-31 | the entries of an array field, read back with `getAll`, are `String` of each element in element order under the field's name, and nothing under any other name |
| Index.BlockGetAll | src/index.ts:25-34 | the entries appended for one property carry only that property's name: `getAll` of it gives the rendered values, and any other name gives nothing |
| Index.SerializedField | src/index.ts:24-34 | for each visited property: an own array field gets one entry per element, in element order, each `String(item)`, and none when the array is empty; any other own field gets exactly one entry `String(value)`, also when the shape does not name it; an inherited property gets nothing |
| Index.SerializedAbsent | src/index.ts:21-36 | a name that no visited property has gets no entry |
| Index.SerializedKeys | src/index.ts:24-36 | every name in the output is an own property of the record; an own property's name is in the output exactly when it is not an array field holding an empty array |
| Index.SerializedGrouped | src/index.ts:24-36 | the output is grouped by property in visiting order: for entries `a <= b`, the property of `a` is visited no later than that of `b` |
| Index.ParseOfSerializedField | src/index.ts:5-39 | parsing the serialized parameters gives each own non-array field back as `String(value)`, so a string field exactly; an array field comes back as its last element's string only; an empty array leaves no name |
| Index.ObjectOfGetAll | src/index.ts:9-12 | a name is in the object exactly when `getAll` finds values for it, and it then holds the last of them |
| Index.ParseOfSerializedKeys | src/index.ts:5-39 | parsing the serialized parameters invents no name: every name is an own property of the record |
| Index.SerializedAsWrittenThrows | src/index.ts:27-28 | run as JavaScript, `serialize` throws a TypeError exactly when some own property is named like an `Object.prototype` member that the shape lacks; otherwise it returns the intended `Serialized` |
| Index.ToStringFieldThrows | src/index.ts:27-28 | for the record `{toString: "x"}` and a shape without that field, the as-written `serialize` throws where `toString=x` is the intended result |
| SearchParams.LastIndex | src/index.ts:10-11 | the position of the last entry with the name, or -1 when there is none |
| SearchParams.LastValue | src/index.ts:10-11 | there is a last value for a name exactly when the name occurs in the entries |
| SearchParams.LastValueIsLastOfGetAll | src/index.ts:10-11 | the last-occurrence value is the last element of `getAll` for that name, and there is none when `getAll` is empty |
| SearchParams.GetAllAppend | src/index.ts:30-33 | `getAll` of appended entries is `getAll` of the first part followed by `getAll` of the second |
| SearchParams.GetAllEmpty | src/index.ts:30-33 | `getAll` finds values for a name exactly when the name occurs in the entries |
| SearchParams.GetAllConcatOne | src/index.ts:24-36 | when only one of several appended lists has a name, `getAll` of the whole gives exactly that list's values for it |
| SearchParams.GetAllConcatNone | src/index.ts:24-36 | a name that no appended list has gets no values from the whole |
| SearchParams.ConcatGrouped | src/index.ts:24-36 | when each list's names have the rank of its position, the appended entries appear in non-decreasing rank |
| JsString.Render | src/index.ts:30-33 | `String()` is the identity on strings, gives a scalar's own text, and gives "" for an empty array |
| JsString.RenderEach | src/index.ts:29-30 | one `String(item)` per element, in element order |

## Findings

| source | as written | input that shows it | evidently intended | confidence | as-written member | corrected member |
|---|---|---|---|---|---|---|
| src/index.ts:9-11 | `obj[key] = value` on the object literal `{}` calls the `__proto__` setter inherited from `Object.prototype` when the key is `__proto__`, and that setter ignores a string, so the entry is lost | the query `__proto__=x` | every name of the input becomes a property of the object (for instance with `Object.create(null)` or `Object.fromEntries`) | not executed; follows from the ECMAScript definition of `Object.prototype.__proto__` | Index.ObjectAsWritten (shown by Index.ProtoEntryIsLost and Index.ObjectAsWrittenDropsProto) | Index.ObjectOf, used by Index.Parse |
| src/index.ts:27-28 | `schemaShape[key]` for a name the shape lacks finds an inherited `Object.prototype` member, such as the function `toString`. That member is truthy, so `schemaType._def.typeName` reads a property of `undefined` and throws a TypeError | the record `{toString: "x"}` with a shape that has no `toString` field | the name is treated like any other field the shape lacks and yields the entry `toString=x`. The `schemaType &&` guard exists to let such names through | not executed; follows from zod shapes being object literals | Index.SerializedAsWritten (shown by Index.ToStringFieldThrows and Index.SerializedAsWrittenThrows) | Index.Serialized, used by Index.Serialize |

## Left out

- `schema.parse`, the zod validator with its coercion and errors, is a foreign library. `Parse` takes it as a function parameter and returns its result. Any exception it throws is part of that result type.
- The percent-encoding and `toString()` wire format of `URLSearchParams` belong to the platform. Entries are modelled already decoded. Replacing lone surrogates with U+FFFD is not modelled either.
- What `String()` gives for numbers, booleans, bigints, dates and objects (float formatting, `[object Object]`, …) is host behaviour. Each such value is a `Scalar` carrying its text.
- The order of the names inside the intermediate object is not modelled. It is a `map`, and JavaScript's integer-like-keys-first property order is not represented.
- `for…in` order is taken as given: the record is the sequence of properties in visiting order. Non-enumerable and symbol-keyed properties are not visited and are not represented.
- Index.Serialize: requires that every own field whose schema is a `ZodArray` holds an array. `values: zodInfer<T>` demands this of callers. For a non-array value, `for…of` would throw, or iterate a string's characters; that is not modelled.
- Sparse arrays (holes that `for…of` yields as `undefined`) are not modelled. Arrays are dense sequences, though `undefined` and `null` elements are.
- The richer API used by the tests and the README example is not in `src/index.ts` and is not modelled. That API includes a serializer class, `safeParse`, `lenientParse`, `"t"`/`"f"` booleans, omitting fields equal to their defaults, and base64 JSON for nested objects.
