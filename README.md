# integrity.js — a verified model of the schema registry and matcher

integrity.js is a small JavaScript library with two entry points:

- `register(name, spec)` compiles a declaration into an *interface* and stores it under a fresh name. A declaration gives each property a base type (`number`, `string` or `boolean`) and optional flag tokens such as `"> 4"`, `"safe int"`, `"=== abc"` or `length: ["< 10"]`, plus a RegExp under `test` for strings. The interface stores, per property, a list of predicates.
- `test(name, subject)` checks a candidate object against a registered interface. It accepts only when:
  - the candidate's keys are exactly the interface's property names;
  - every predicate of every property holds on the candidate's value.

The model has six modules, one file each:

| file | module | what it holds |
|---|---|---|
| `wrappers.dfy` | `Wrappers` | `Option` and `Result` |
| `values.dfy` | `Values` | JS values; a JS number is a finite real, ±Infinity or NaN; the six operators of `$operators` and their comparison semantics |
| `tokens.dfy` | `Tokens` | hand-written recognisers for the two flag grammars (`$re.number` and `re_flags`), the operator-table lookup, and numeric-literal parsing |
| `predicates.dfy` | `Predicates` | the compiled predicates as a datatype, with `Eval` giving their meaning |
| `descriptors.dfy` | `Descriptors` | the three type descriptors and the flag compiler |
| `integrity.dfy` | `Integrity` | the registry |

`Descriptors` holds:
- each type's membership test and allowed-key pattern;
- `getInterfaceCheck`;
- specification functions stating what each `getFlags*` pushes;
- the `getFlags*` routines themselves, written as methods with loops. Each method appends to a predicate list, as the source pushes into the caller's array.

`Integrity` holds:
- the specification of `register` (`CompileFrom`, `AfterRegister`, `RegisterResult`) and of `test` (`Accepts`);
- a `Registry` class whose field `interfaces` plays the part of `$interfaces`. `Register` and `Test` are loop-for-loop models of the source's functions, proved against that specification.

The code is more lenient than its error messages suggest, and the model follows the code:

- An unknown declaration key (integrity.js:91-92) does not make the call fail. `getFlags` returns early, the property keeps only its membership test, and `register` still stores the interface.
- A flag token that fails its grammar (integrity.js:101-102, 109-110) is skipped, and registration goes on.
- An unknown `type` tag is not reported. `$types[def.type].is` throws a TypeError (integrity.js:83). This is modelled as the outcome `TypeErrorThrown`, with the registry unchanged.
- The number vocabulary also has `positive` and `negative` (integrity.js:25-26). `"!0"` is neither a vocabulary word nor a numeric-grammar token, so it is skipped.
- A bare operator token such as `"!=="` is found in the vocabulary (integrity.js:20, 32; 52-53, 69). The token pushes the operator's factory, which is truthy, so it always passes (`Factory(op)`).
- A length comparison on a value that is not a string compares `undefined`. It is false for every operator except `!==`, which is true.
- `test` runs each property's predicates from the last to the first (integrity.js:161-165). Only the boolean answer is modelled, and the order does not affect it.

## Model

| member | source | states |
|---|---|---|
| Values.Compare | integrity.js:10-16 | `b op a` on a JS number against a numeric literal: NaN satisfies only `!==` |
| Values.CompareValue | integrity.js:10-16 | `===` and `!==` are strict: a value that is not a number is never equal to a numeric operand; on a number the result is the IEEE comparison |
| Tokens.IndexOf | integrity.js:105 | `indexOf(' ')`: -1 exactly when the character is absent, otherwise a position holding it with no earlier occurrence |
| Tokens.ParseOp | integrity.js:9-16 | looking a text up among the six operator keys yields only an operator spelled exactly that way |
| Tokens.ParseOpText | integrity.js:9-16 | every operator key is found as itself and contains no space, so splitting at the first space recovers it |
| Tokens.IntTextRoundTrip | integrity.js:7 | the decimal spelling of any integer, with a minus sign when negative, matches the literal grammar, and unary `+` gives back that integer |
| Tokens.MatchNumericFlag | integrity.js:7 | a token the numeric grammar accepts is an operator, one space, and a numeric literal, split at that space |
| Tokens.NumericFlagComplete | integrity.js:7 | every operator-space-literal text is accepted, with its operator and literal as the parts |
| Tokens.MatchStringFlag | integrity.js:57 | a token the string grammar accepts is `!==` or `===`, one space, and a non-empty remainder with no line terminator |
| Tokens.StringFlagComplete | integrity.js:57 | every such text is accepted; the operand is the whole remainder, spaces included |
| Predicates.Eval | integrity.js:10-54 | the meaning of each pushed function: the six operator factories, `b.length op a`, the number and string vocabulary, the pattern test, and a bare factory, which is truthy |
| Predicates.ComparatorSemantics | integrity.js:10-49 | every operator on NaN, on both infinities and on finite numbers; `b.length op a` on a string compares its length like a number, on a value without a `length` it holds only for `!==` |
| Predicates.NumberWordsImply | integrity.js:21-24 | `safe int` implies `int`, `int` implies `finite`, `finite` implies `defined`; NaN is not `defined` and the infinities are not `finite` |
| Predicates.SignWords | integrity.js:25-26 | `positive` is `> 0`, `negative` is `< 0`, and no value is both |
| Predicates.StringEqualityStrict | integrity.js:52-53 | `!== s` holds exactly when `=== s` fails; `=== s` holds only of the string `s` itself |
| Predicates.OrderingCoercion | integrity.js:12-15 | an ordering comparison sees a boolean as 0 or 1 and is never satisfied by `Other`, a plain object, whose numeric conversion is NaN |
| Values.IsInteger | integrity.js:21 | `Number.isInteger`: a finite number without a fractional part |
| Values.IsSafeInteger | integrity.js:22 | `Number.isSafeInteger`: an integer of magnitude at most 2^53 - 1 |
| Values.IntegerChecks | integrity.js:21-22 | every integer is an integer; an integer is safe exactly within 2^53 - 1 of zero; safe implies integer; a number with a fraction, the infinities and NaN are not integers |
| Values.ToNumber | integrity.js:12-15 | the number an ordering comparison converts its candidate to: booleans to 0 or 1, `Other` (a plain object) to NaN |
| Tokens.IsNumLiteral | integrity.js:7 | the literal part `-?\d+(\.\d+)?` of the numeric grammar |
| Tokens.LiteralValue | integrity.js:106 | unary `+` on a literal of that grammar, as an exact real |
| Tokens.LiteralParts | integrity.js:106 | a sign, whole digits and optional fraction digits form a literal whose value is the whole digits plus the fraction digits over a power of ten, negated under the sign (`"-0.5"` reads as -0.5) |
| Tokens.LiteralWholePart | integrity.js:106 | the whole digits of an unsigned literal are the integer part of its value |
| Tokens.FractionBelowOne | integrity.js:106 | fraction digits add at least 0 and less than 1 |
| Descriptors.MembershipDisjoint | integrity.js:19 | a value passes at most one of the three `typeof` membership tests |
| Descriptors.KeyAllowed | integrity.js:28 | each type's `allowedFlags` test of a key: `/flags/`, `/length\|flags\|test/` (integrity.js:58), `/^$/` (integrity.js:79) |
| Descriptors.AllowedKeysUnanchored | integrity.js:58 | the number and string patterns are unanchored, so any key containing `flags` (or `length`, `test` for a string) passes; every number key passes for a string; the boolean pattern passes only the empty key |
| Descriptors.NumberWord | integrity.js:20-27 | `flag in this.number`: the six operator keys and the six words of the number vocabulary |
| Descriptors.NumberWords | integrity.js:20-27 | each operator key finds its own factory and a factory is found only under its operator's spelling; each of the six words finds its test |
| Descriptors.StringWord | integrity.js:51-55 | `flag in this.flags`: `!==`, `===` and `defined` |
| Descriptors.GetInterfaceCheck | integrity.js:82-84 | no `type` key gives the null check; a known tag gives that type's membership test; any other tag gives the throwing lookup |
| Descriptors.TokenPredsBound | integrity.js:32-36 | one token of `number.flags`, `string.length` or `string.flags` pushes at most one predicate, taken from that list's vocabulary |
| Descriptors.TokensPredsBound | integrity.js:31-37 | a token list pushes at most one predicate per token, all from its vocabulary |
| Descriptors.TokensPredsAppend | integrity.js:31-37 | a token list compiles token by token: the predicates of a concatenation are those of its halves, in order |
| Descriptors.StringPredsVocabulary | integrity.js:59-75 | everything the string descriptor pushes is a pattern test, a length comparison or a string-flag predicate |
| Descriptors.PropertyShape | integrity.js:85-98 | a compiled property starts with its membership test; only its descriptor's predicates follow; a disallowed key or the boolean type leaves the membership test alone |
| Descriptors.PropertyRequiresMembership | integrity.js:133 | a value of another type fails the property, whatever its flags |
| Descriptors.NumericTokenCompiles | integrity.js:100-107 | a token of the numeric grammar pushes exactly one comparator, with the operator before the first space and the parsed literal after it: `b op a` in `number.flags` and `b.length op a` in `string.length` |
| Descriptors.MalformedTokenSkipped | integrity.js:100-115 | a token outside its own list's vocabulary and grammar pushes nothing, even when it fits the other list's grammar (`"=== abc"` in `number.flags`, `"< 5"` in `string.flags`) |
| Descriptors.StringTokenCompiles | integrity.js:108-115 | a token of the string grammar pushes one equality test against the whole remainder after the first space |
| Descriptors.StringWords | integrity.js:51-55 | the bare words `defined`, `!==` and `===` are pushed directly; `defined` holds exactly when the value is not `''` |
| Descriptors.GetFlagsNumeric | integrity.js:100-107 | the list grows by exactly the one comparator of a well-formed token, or by nothing |
| Descriptors.GetFlagsString | integrity.js:108-115 | the list grows by exactly the one equality test of a well-formed token, or by nothing |
| Descriptors.NumberGetFlags | integrity.js:29-38 | the list grows by the predicates of the `flags` tokens, in order; nothing when `flags` is missing or not an array |
| Descriptors.LengthGetFlags | integrity.js:64-67 | the list grows by the length comparators of the `length` tokens, in order |
| Descriptors.StringFlagsGetFlags | integrity.js:68-74 | the list grows by the predicates of the string `flags` tokens, in order |
| Descriptors.StringGetFlags | integrity.js:59-75 | the list grows by the pattern test first, then the `length` tokens, then the `flags` tokens |
| Descriptors.GetFlags | integrity.js:85-99 | after the key check, the list grows by the descriptor's predicates, or by nothing when some key fails its type's pattern |
| Integrity.CompileFrom | integrity.js:123-135 | the loop of `register`: per property in order, the duplicate-key, unknown-tag and missing-`type` exits, then membership test plus flags |
| Integrity.CompileFromSucceeds | integrity.js:123-135 | the loop of `register` completes exactly when every property has a known type under a key not seen before |
| Integrity.CompileFromValue | integrity.js:123-135 | a completed loop yields each property compiled on its own, in declaration order, after those already compiled |
| Integrity.CompileCharacterized | integrity.js:121-137 | a declaration compiles exactly when its keys are distinct and every property has a known type; the interface is then every property's membership test plus flags, in order |
| Integrity.CompileFromErrorLocated | integrity.js:123-131 | each abort names its cause: a property without `type`, a property with an unknown tag, or a key met earlier |
| Integrity.CompileNeverDuplicatesDistinctKeys | integrity.js:124-125 | with distinct keys, as an object's own keys are, the duplicate-property abort never happens |
| Integrity.RegisterDuplicateName | integrity.js:116-119 | registering a name already present leaves the registry unchanged and reports the duplicate name |
| Integrity.RegisterMissingType | integrity.js:128-131 | one property without `type` anywhere makes `register` store nothing, the properties compiled before it included |
| Integrity.RegisterAddsOne | integrity.js:121-137 | a fresh name and a compilable declaration add exactly the compiled interface under that name and nothing else |
| Integrity.RegisterOnlyAdds | integrity.js:116-138 | `register` never changes or removes an entry and adds at most `name`; a rejected call changes nothing |
| Integrity.CompiledWellFormed | integrity.js:133-134 | a stored interface has distinct property names, each with a list led by a membership test |
| Integrity.Accepts | integrity.js:139-170 | what `test` answers: the name is registered, the candidate's keys are exactly the interface's property names, and every predicate holds on the property's value |
| Integrity.RegisterThenTest | integrity.js:139-170 | after a successful registration, `test` of that name accepts exactly the candidates whose keys are the declared ones and whose values pass every compiled predicate |
| Integrity.RegisterKeepsOtherAnswers | integrity.js:137 | registering one name never changes `test`'s answer for another |
| Integrity.Registry.constructor | integrity.js:4 | the registry starts empty |
| Integrity.Registry.Register | integrity.js:116-138 | the new registry and the outcome are those of the specification, and every stored interface stays well formed |
| Integrity.Registry.Test | integrity.js:139-170 | the answer is `Accepts`: false for an unknown name, a superfluous key or a missing key; otherwise true exactly when every predicate holds; an accepted candidate has, for every property, a value of the declared base type; the registry is not modified |

## Left out

- Floating point: a finite JS number is an exact real. Rounding of decimal literals to doubles, and the precision limits of `Number.isInteger` and `Number.isSafeInteger` on large doubles, are not modelled. The safe range is the exact bound 2^53 - 1.
- Values.ToNumber: an ordering comparison (`<`, `<=`, `>`, `>=`, `positive`, `negative`) converts a string to NaN in the model. JS parses numeric strings. Such a comparison does run on a string, since a property's predicates run from last to first (integrity.js:161-165) and the membership test comes last. The answer of `test` is still unchanged, because the number membership test then fails on the string.
- Regular expressions: the RegExp engine is the `Matcher` parameter. The state a `/g` pattern keeps between calls (`lastIndex`) is not modelled.
- `console.error` diagnostics are not modelled: only return values and registry contents are. `!!console.error(...)` is `false`.
- JS object quirks are not modelled:
  - `in` sees inherited keys: `flag in this.number` finds `toString` on a plain object, `key in $interface` finds inherited names, and so does `key in subject`.
  - `for-in` enumerates inherited enumerable keys and puts integer-like keys first.
  - A declaration is an ordered list of keys, and a candidate a finite map of its own keys.
- A `type` tag that is not a string but converts to a known tag (such as `["number"]`) is treated as unknown.
- Flag lists hold strings only. A non-string element of `flags` or `length` is not modelled.
- A string's `length` counts UTF-16 code units in JS; the model counts the characters of a Dafny string.
- `null` and `undefined` as candidate values are not modelled. Their `.length` throws. The value `Other` stands for a plain object, whose numeric conversion is NaN and which has no `length`.
- Other non-primitive candidate values are not modelled. An array or a function has a `length`, and `[5] < 6` is true in JS. A Date, a wrapper object such as `new Number(5)`, an object with its own `valueOf`, and a BigInt compare as numbers under an ordering comparison (`new Date(0) < 5` and `5n < 6` are true). A Symbol makes an ordering comparison and `re.test` throw; since predicates run from last to first (integrity.js:161-165), `test` then throws before the membership test runs.
- A candidate passed to `test` that is not an object (`test(name, null)`, `test(name, 5)`) is not modelled: `Subject` is always a map. In JS, `for-in` over it enumerates nothing (integrity.js:146), and `key in subject` then throws a TypeError (integrity.js:156) as soon as the interface has a property.
- A property declaration that is not an object (`{a: 5}` or `{a: null}`) is not modelled: `PropertyDecl` is always a map. In JS, `'type' in def` throws a TypeError on it (integrity.js:83).
- Aliasing: the array each `getFlags*` pushes into is modelled as a value passed in and returned extended.
- The module wrapper and export (integrity.js:3, 172-175) and the commented-out example after them are not part of this model.
