# Overload declarations, the `format` extension and uint values of CEL C++

This project models three pieces of the CEL C++ runtime and checker and
proves properties of each.

- **Function declarations** (`common/decl.cc`):
  - the assignability relation between CEL types: equality, `dyn` as the top type, the six nullable wrapper types, and covariant type parameters;
  - the overlap test between two overload signatures;
  - insertion of an overload into a function declaration's overload set, which either succeeds or leaves the set untouched and reports why;
  - collection of the type-parameter names a signature mentions.
- **The string `format` extension** (`extensions/formatting.cc`):
  - `"<format>".format([args])` copies the format string, turns `%%` into `%`, and replaces each clause `%[.N]<verb>` by the rendering of the next argument;
  - the verbs: `s` is the string rendering, including quoted lists and maps with sorted keys; `d` is decimal; `b` is binary; `x`/`X` is hex; `o` is octal; `f`/`e` are fixed and scientific doubles.
- **Unsigned integer values** (`common/values/uint_value.cc`): equality with other values, and the debug rendering.

Modules, one file each:

- `Types` (cel_types.dfy): types as a kind, a name and parameters, with the factories the checker uses.
- `Decl` (decl.dfy): assignability, overlap, and the `FunctionDecl` class with `AddOverloadImpl`. It holds the overload set in a field the method updates in place. It also has `CollectTypeParams` and `GetTypeParams`.
- `Values` (values.dfy): runtime values. Texts are byte strings, and 64-bit integers are range-restricted types.
- `Numerals` (numerals.dfy): positional numerals, ASCII upper-casing and byte-wise hex, which the integer clauses print with.
- `Formatting` (formatting.dfy): the `format` function.
  - Each routine of the implementation that loops is a method proved equal to a specification function: `Format`, `ParsePrecision`, `FormatBinary`, `StrAppendQuoted`, `FormatList` and `FormatMap`. The clause routines without a loop (`FormatString`, `FormatDecimal`, `FormatHex`, `FormatOctal`) are functions.
  - The lemmas state what those functions guarantee.
- `UintValues` (uint_value.dfy): both `Equal` overloads, and the debug rendering as written and as intended.

## Model

| member | source | states |
|---|---|---|
| `Types.Unwrapped` | common/decl.cc:41-62 | Each wrapper kind stands for a parameterless primitive type, which is neither `dyn` nor itself a wrapper. |
| `Decl.TypeIsAssignable` | common/decl.cc:33-79 | The recursive check with its parameter loop decides exactly the assignability relation `Assignable`. |
| `Decl.LeafAcceptsOnlyItself` | common/decl.cc:63-72 | A parameterless target other than `dyn` and the wrappers accepts a source if and only if the source is that same type. |
| `Decl.AssignableReflexiveAndDynIsTop` | common/decl.cc:34-40 | Every type is assignable to itself, and every type is assignable to `dyn`. |
| `Decl.AssignableFromDyn` | common/decl.cc:37-66 | Only a `dyn`-kinded target accepts `dyn`. So the relation is not symmetric: `dyn` accepts `int`, `int` does not accept `dyn`. |
| `Decl.WrapperAccepts` | common/decl.cc:41-62 | A wrapper target accepts exactly three sources: null, its underlying primitive, and itself. |
| `Decl.StructuralAssignability` | common/decl.cc:63-78 | Any other target is assignable from a source if and only if kind, name and arity agree and the parameters are assignable pairwise in the same direction. Two type parameters match if and only if their names are equal. |
| `Decl.AssignableTransitive` | common/decl.cc:33-79 | Assignability is transitive. |
| `Decl.AssignableAntisymmetric` | common/decl.cc:33-79 | On well-formed types, two types each assignable to the other are equal. |
| `Decl.SignaturesOverlap` | common/decl.cc:85-103 | The result is true if and only if the member flags and arities agree and every argument position is assignable in at least one direction. |
| `Decl.OverlappingSymmetric` | common/decl.cc:85-103 | Overlap is symmetric. Two nullary overloads overlap if and only if their member flags agree. |
| `Decl.FunctionDecl.AddOverloadImpl` | common/decl.cc:105-127 | Preserves the invariant "ids are keys and no two overloads overlap". An incoming error passes through unchanged. A taken id gives "overload already exists: <id>". An overlap gives InvalidArgument "overload signature collision: <existing> collides with <new>", naming an overlapping existing id. In all three cases the set is unchanged. Otherwise the overload is inserted and the set grows by exactly one. |
| `Decl.TypeParamsOfFirstMembership` | common/decl.cc:141-153 | A name is among the type parameters of the first `k` parameters if and only if one of those parameters mentions it. |
| `Decl.TypeParamsAreReachable` | common/decl.cc:129-161 | A name is collected if and only if some path through list, map, opaque and function parameters leads to a type parameter with that name. |
| `Decl.CollectedTypeParamIsReached` | common/decl.cc:129-161 | Every collected name has such a path, which the lemma returns. |
| `Decl.ReachedTypeParamIsCollected` | common/decl.cc:129-161 | Every name such a path reaches is collected. |
| `Decl.CollectTypeParams` | common/decl.cc:129-161 | The set the recursive walk accumulates is the incoming set plus the type parameters of the type. |
| `Decl.GetTypeParams` | common/decl.cc:165-172 | The result is the type parameters of the signature's result and arguments, taken as one function type. |
| `Decl.CollidingRegistration` | common/decl.cc:116-123 | Registering foo(int, int) -> int and then foo(int, int) -> bool: the second is refused with "overload signature collision: foo_int_int collides with foo_int_int_bool", and only the first stays registered. |
| `Values.UnsignedNegate` | extensions/formatting.cc:323-324 | Unsigned negation yields the magnitude of a negative int64. For the most negative int64 that magnitude is 2^63. |
| `Numerals.Digits` | extensions/formatting.cc:299-304 | A numeral has at least one digit. |
| `Numerals.DigitsRoundTrip` | extensions/formatting.cc:299-304 | The numeral of `n` in base 2, 8, 10 or 16 reads back to `n`. |
| `Numerals.DigitsAreDigits` | extensions/formatting.cc:344-357 | Every character of a numeral is a digit of its base. A numeral starts with '0' only for zero, so there are no leading zeros. |
| `Numerals.PaddedBinary` | extensions/formatting.cc:349-357 | The padded bit string has exactly the requested width. |
| `Numerals.PaddedBinaryAtBitWidth` | extensions/formatting.cc:348-357 | Written at its bit width, a positive number's bits are its binary numeral. Its numeral is exactly bit-width long. |
| `Numerals.PaddedBinaryOneWider` | extensions/formatting.cc:348-360 | One position more than the bit width adds a single leading '0', which the sign then overwrites. |
| `Numerals.AsciiToUpper` | extensions/formatting.cc:397-399 | Upper-casing keeps the length, maps each lower-case ASCII letter to its capital, and keeps every other byte. |
| `Numerals.BytesToHex` | extensions/formatting.cc:368-372 | Each byte becomes two lower-case hex digits, high nibble first, in order. |
| `Formatting.DigitRunEnd` | extensions/formatting.cc:69-72 | The scan stops at the first non-digit, or at the end, and every byte it passes is a digit. |
| `Formatting.SimpleAtoi` | extensions/formatting.cc:77-81 | The conversion succeeds if and only if the digit run is non-empty and its value is at most 2^31 - 1. A success is that value. |
| `Formatting.Precision` | extensions/formatting.cc:65-83 | A successful parse leaves the verb offset inside the clause. |
| `Formatting.ParsePrecision` | extensions/formatting.cc:65-83 | The digit-scanning loop yields exactly `Precision`: the verb offset and optional value, or one of the two precision errors. |
| `Formatting.PrecisionAbsent` | extensions/formatting.cc:67 | Without a leading '.', the result is no precision with the verb at offset 0. |
| `Formatting.PrecisionOfDigits` | extensions/formatting.cc:65-83 | '.' then digits then a non-digit gives offset 1 + the number of digits, and the digits' value. |
| `Formatting.PrecisionUnterminated` | extensions/formatting.cc:73-76 | Digits running to the end of the clause fail with "Unable to find end of precision specifier". |
| `Formatting.PrecisionWithoutDigits` | extensions/formatting.cc:77-81 | An empty digit run fails with "Unable to convert precision specifier to integer". |
| `Formatting.PrecisionOverflow` | extensions/formatting.cc:77-81 | Digits whose value exceeds 2^31 - 1, followed by a non-digit, fail with "Unable to convert precision specifier to integer". |
| `Formatting.FormatBinary` | extensions/formatting.cc:312-362 | The switch and bit loop yield exactly `BinaryText`. Bools give one bit. A negative int gives '-' and the bits of its unsigned negation. Zero gives "0". Other kinds give the binary clause error. |
| `Formatting.SignedBinary` | extensions/formatting.cc:344-361 | Zero gives "0". Otherwise the buffer holds the binary numeral of the magnitude, with '-' in front when the sign bit is set. |
| `Formatting.WriteBits` | extensions/formatting.cc:350-357 | Writing from the last position backwards leaves the low bits of the value, most significant first, in the whole buffer. |
| `Formatting.BinaryTextShape` | extensions/formatting.cc:312-362 | An integer's binary text reads back to its magnitude. For non-zero values its length is the bit width plus one for a sign. |
| `Formatting.SignedClauses` | extensions/formatting.cc:364-428 | Hex and octal print a negative int as '-' and its magnitude, the most negative included. A uint reads back to its value. 'X' is 'x' upper-cased. |
| `Formatting.IntegerClauseKinds` | extensions/formatting.cc:295-310 | The decimal and octal clauses succeed if and only if the value is an int or a uint. |
| `Formatting.BinaryClauseKinds` | extensions/formatting.cc:316-342 | The binary clause succeeds if and only if the value is an int, a uint or a bool. |
| `Formatting.HexClauseKinds` | extensions/formatting.cc:367-396 | The hex clause succeeds if and only if the value is an int, a uint, a string or bytes. |
| `Formatting.FormatDecimal` | extensions/formatting.cc:295-310 | Succeeds if and only if the value is an int or a uint. Any other kind fails with "Decimal clause can only be used on integers, was given <type>". |
| `Formatting.LowerHex` | extensions/formatting.cc:367-396 | Succeeds if and only if the value is an int, a uint, a string or bytes. Any other kind fails with the hex clause error naming its type. |
| `Formatting.FormatHex` | extensions/formatting.cc:364-401 | Succeeds for exactly ints, uints, strings and bytes, otherwise "Hex clause can only be used on integers, byte buffers, and strings, was given <type>". A string or bytes gives two digits per byte, in either case. |
| `Formatting.FormatOctal` | extensions/formatting.cc:403-428 | Succeeds if and only if the value is an int or a uint. Any other kind fails with "Octal clause can only be used on integers, was given <type>". |
| `Formatting.EscapeConcat` | extensions/formatting.cc:142-147 | Escaping distributes over concatenation. |
| `Formatting.UnescapeEscape` | extensions/formatting.cc:142-147 | Dropping the escaping backslashes restores the original bytes. |
| `Formatting.QuotedStringRoundTrip` | extensions/formatting.cc:137-149 | A quoted string is wrapped in '"', and quoted bytes in 'b"' and '"'. Unwrapping and unescaping either gives back the original. |
| `Formatting.AppendEscaped` | extensions/formatting.cc:142-147 | The byte loop appends exactly the escaped text: a backslash before each '\\' and '"'. |
| `Formatting.StrAppendQuoted` | extensions/formatting.cc:134-171 | Appends exactly the quoted form for the kind: escaped and quoted strings and bytes, `timestamp("…")`, `duration("…")`, special doubles in quotes, everything else verbatim. The target is kept as a prefix. |
| `Formatting.TerminatedIsJoinedPlusSeparator` | extensions/formatting.cc:187-191 | Each item followed by ", " is the joined items plus one trailing separator, which the resize drops. |
| `Formatting.CloseSeparated` | extensions/formatting.cc:189-192 | Cutting the last two bytes, when anything was appended, and closing yields the opening bracket, the items joined by ", ", and the closing bracket. An empty list gives "[]". |
| `Formatting.AppendItem` | extensions/formatting.cc:225-227 | One loop step appends exactly one more item (prefix and quoted text) and its separator. |
| `Formatting.LessIrreflexive` | extensions/formatting.cc:199 | The key order of the ordered map is irreflexive. |
| `Formatting.LessTransitive` | extensions/formatting.cc:199 | The key order is transitive. |
| `Formatting.LessTotal` | extensions/formatting.cc:199 | Any two distinct keys are ordered one way or the other. |
| `Formatting.EmplaceIndices` | extensions/formatting.cc:216 | Emplacing adds only the new entry, so every position still refers to an entry of the map. |
| `Formatting.EmplaceKeys` | extensions/formatting.cc:216 | After emplacing, the keys are the old keys plus the new one. |
| `Formatting.EmplaceProperties` | extensions/formatting.cc:216 | Emplacing keeps the keys strictly ascending. A present key is never replaced; an absent key grows the map by one. |
| `Formatting.FormatStringScalars` | extensions/formatting.cc:236-293 | Every non-container value has a string rendering, except the refused kinds. Those fail with "Could not convert argument <type> to string". |
| `Formatting.FormatString` | extensions/formatting.cc:236-293 | A non-container value renders if and only if its kind is not a refused one. A refused kind fails with "Could not convert argument <type> to string". Bools render as "true" and "false". |
| `Formatting.DecimalAgreesWithString` | extensions/formatting.cc:250-257 | On integers the 'd' and 's' clauses agree, and the decimal reads back to the value. |
| `Formatting.KeyTextIsFormatString` | extensions/formatting.cc:212-213 | A key of an accepted kind always has a string rendering. |
| `Formatting.SortedKeys` | extensions/formatting.cc:201-218 | Every collected entry refers to a position of the map's entries. |
| `Formatting.SortKeys` | extensions/formatting.cc:201-218 | The key loop yields exactly `SortedKeys`: the first refused key's error, or every key's quoted text emplaced under its position. |
| `Formatting.SortedKeysStep` | extensions/formatting.cc:204-217 | An accepted key adds its quoted text to the keys, and preserves both the position bound and the order. |
| `Formatting.SortedKeysAscending` | extensions/formatting.cc:199-218 | The collected keys are strictly ascending in byte order. |
| `Formatting.SortedKeysRejectsKey` | extensions/formatting.cc:204-211 | The first key that is not a string, bool, int or uint makes the map fail with "Map keys must be strings, booleans, integers, or unsigned integers, was given <type>". |
| `Formatting.SortedKeysCollectsAll` | extensions/formatting.cc:201-218 | On success, every key is of an accepted kind and its quoted text is among the collected keys, and no key is lost. |
| `Formatting.EmplacePaired` | extensions/formatting.cc:212-216 | Emplacing a key text with the position of the entry it was quoted from keeps every entry paired with its own map entry. |
| `Formatting.SortedKeysPaired` | extensions/formatting.cc:201-218 | Every entry of the sorted map pairs a key text with a map entry whose key is of an accepted kind and quotes to that text, so each value is rendered after its own key. |
| `Formatting.SortedKeysExact` | extensions/formatting.cc:199-222 | The sorted keys are exactly the quoted keys of the map: strictly ascending, each paired with its own entry, and every key of the map among them. |
| `Formatting.ListItemsStep` | extensions/formatting.cc:181-188 | An element either fails the rest of the list or puts its quoted rendering in front of the rest. |
| `Formatting.ListItemsAllFormatted` | extensions/formatting.cc:181-188 | When every element formats, the items are the elements' quoted renderings, one per element, in order. |
| `Formatting.ListItemsFirstFailure` | extensions/formatting.cc:184-185 | The first element that does not format decides the error of the whole list. |
| `Formatting.FormatList` | extensions/formatting.cc:173-194 | The loop yields exactly `ListText`: '[', the quoted elements joined by ", ", ']'; or the first element's error. |
| `Formatting.MapItemsStep` | extensions/formatting.cc:222-228 | An entry either fails the rest or puts `key:value` in front of the rest. |
| `Formatting.FormatMap` | extensions/formatting.cc:196-234 | Both loops yield exactly `MapText`: '{', then `key:value` for each sorted quoted key with its quoted value, joined by ", ", then '}'. A refused key or an unformattable value gives the error. |
| `Formatting.ParseAndFormatClause` | extensions/formatting.cc:471-517 | A successful clause ends at an accepted verb inside the clause. |
| `Formatting.ClauseDispatch` | extensions/formatting.cc:475-516 | A precision error ends the clause. Any verb other than `s d f e b x X o` fails with "Unrecognized formatting clause". 's' and 'd' render as the string and decimal clauses do. |
| `Formatting.Format` | extensions/formatting.cc:519-553 | The scanning loop yields exactly `Rendered` of the whole format with the arguments from index 0. |
| `Formatting.RenderedCopiesText` | extensions/formatting.cc:529-532 | Bytes other than '%' are copied verbatim. |
| `Formatting.RenderedPercent` | extensions/formatting.cc:533-540 | "%%" yields one '%' and consumes no argument. A '%' at the end fails with "Unexpected end of format string". |
| `Formatting.RenderedOutOfRange` | extensions/formatting.cc:541-544 | A clause with no argument left fails with "Index N out of range", N being the number of arguments. |
| `Formatting.RenderedStringClause` | extensions/formatting.cc:545-550 | "%s" consumes exactly the next argument and resumes just past the verb. |
| `Formatting.RenderedClause` | extensions/formatting.cc:541-550 | Every clause, whatever its verb, consumes exactly the next argument, appends its rendering, and resumes just past the verb. |
| `Formatting.RenderedIgnoresSurplus` | extensions/formatting.cc:526-551 | Extra arguments beyond those the clauses consume do not change a successful result. |
| `UintValues.EqualInto` | common/values/uint_value.cc:80-99 | The status is always OK and the result is always a bool. A value other than uint, double or int compares unequal. |
| `UintValues.Equal` | common/values/uint_value.cc:101-106 | Always succeeds, with exactly the result the out-parameter overload stores. |
| `UintValues.UintEqualsUint` | common/values/uint_value.cc:82-85 | Uint against uint is equality of the native values, so every uint equals itself. |
| `UintValues.UintEqualsIntNumerically` | common/values/uint_value.cc:92-96 | A negative int never equals a uint. A non-negative int compares as the uint of the same value. |
| `UintValues.AsInt64` | common/values/uint_value.cc:42-44 | Passing the native value as `int64_t` keeps it modulo 2^64. |
| `UintValues.UintDebugString` | common/values/uint_value.cc:38 | The rendering of a signed 64-bit integer ends in 'u', starts with '-' exactly for negative values, and its digits read back to the magnitude. |
| `UintValues.DebugString` | common/values/uint_value.cc:42-44 | As written: the rendering starts with '-' exactly when the value is at least 2^63; below that its digits read back to the value. |
| `UintValues.CorrectedDebugString` | common/values/uint_value.cc:38-44 | The rendering ends in 'u' after at least one digit. |
| `UintValues.CorrectedDebugStringRoundTrip` | common/values/uint_value.cc:38-44 | The intended rendering reads back to the value and never carries a sign. |
| `UintValues.DebugStringBelowTwo63` | common/values/uint_value.cc:38-44 | Below 2^63 the rendering as written is the intended one. |
| `UintValues.DebugStringAsWrittenIsNegative` | common/values/uint_value.cc:38-44 | From 2^63 on, the rendering as written starts with '-' and differs from the intended one. The largest uint prints as "-1u". |

## Left out

- The 'f' and 'e' clauses: locale-aware ICU number formatting, `GetDouble`, `FormatFixed`, `FormatScientific`, `FormatDouble` and `CreateDoubleNumberFormater` (extensions/formatting.cc:85-132, 430-469). They are the function parameter `floating`, which `ParseAndFormatClause` calls with the parsed precision and the scientific flag.
- The text of finite doubles (`absl::StrAppend` of a double), of durations (seconds through `FormatDouble` with unit "s") and of timestamps (their debug string). The value carries that text. Its computation, and the Internal error `FormatDouble` can return for a duration, are not modelled.
- `RegisterStringFormattingFunctions`: locale parsing and registration in the function registry, which is plumbing.
- Lists and maps are sequences, with a map's iteration order given by its entries sequence. The errors their iterators and `args.Get`/`args.Size` can return are not modelled, because those containers are not part of this model.
- Value kinds the formatter refuses (structs, opaques, errors, unknowns and the like) are collapsed into `OtherValue`, which carries only its type name.
- The scratch buffers are passed by reference and reused, and the results are string views into them. The model has no aliasing: each rendering is a fresh byte string.
- An int key and a uint key with the same number quote to the same text, so only the first of them in iteration order is rendered. The model keeps this behaviour as written.
- `Decl.FunctionDecl.AddOverloadImpl`: the hash set's iteration order is not modelled. When several existing overloads overlap the new one, the contract promises only that the message names one of them.
- `UintValues.EqualInto`: the comparison with a double goes through `internal::Number`, which is not part of this model. It is the parameter `doubleEquals`, so the double case is stated only as a call to that parameter.
- `UintValue::SerializeTo` and `UintValue::ConvertToJson` (common/values/uint_value.cc:46-78): protobuf serialisation.
- The copy and move overloads of `AddOverloadImpl` behave identically and are one method. `ABSL_DCHECK(inserted)` holds because insertion happens only on the branch where the id is not yet a key, which the method's `|overloads| == |old(overloads)| + 1` clause states.

## Findings

| source | as written | input that shows it | evidently intended | confidence | as-written member | corrected member |
|---|---|---|---|---|---|---|
| common/values/uint_value.cc:38-44 | `DebugString` passes the `uint64_t` native value to `UintDebugString(int64_t)`, so values from 2^63 on wrap to negative numbers | the uint 18446744073709551615 renders as "-1u" | the unsigned decimal numeral followed by 'u', "18446744073709551615u" | not executed | `UintValues.DebugStringAsWrittenIsNegative` | `UintValues.CorrectedDebugStringRoundTrip` |
