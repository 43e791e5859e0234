/**
 * Compiled predicates: the structured form of the unary functions that
 * integrity.js pushes into a property's predicate list, and their meaning.
 */
module Predicates {
  import opened Values

  /** A regular expression, by its source text and its flags. */
  datatype Regex = Regex(source: string, flags: string)

  /**
   * `re.test(value)`: the RegExp engine, which is outside this model, is
   * passed in. It sees the value itself, since `test` converts it to a
   * string first.
   */
  type Matcher = (Regex, Value) -> bool

  datatype Pred =
    /** The descriptors' membership tests (`typeof value === ...`). */
    | IsNum | IsStr | IsBool
    /** `b op a`, from the operator table (`number.flags`). */
    | NumCmp(op: Op, a: real)
    /** `b.length op a`, from the string descriptor's table (`string.length`). */
    | LenCmp(op: Op, a: real)
    /** `b === s` and `b !== s`, from `string.flags`. */
    | StrEq(s: string) | StrNe(s: string)
    /** `int`, `safe int`, `defined`, `finite`, `positive`, `negative` of `number.flags`. */
    | Int | SafeInt | NotNaN | Finite | Positive | Negative
    /** `defined` of `string.flags`: `value !== ''`. */
    | NonEmpty
    /** The `test` key of a string declaration. */
    | Matches(re: Regex)
    /**
     * A bare operator token pushes the operator's factory `(a) => (b) => ...`;
     * called on a value it returns a function, which is truthy.
     */
    | Factory(op: Op)

  /** The length comparison `b.length op a`; a non-string has no length (`undefined`). */
  function CompareLength(op: Op, v: Value, a: real): bool
  {
    match v
    case Str(s) => Compare(op, Fin(|s| as real), a)
    case _ => Compare(op, NaN, a)
  }

  /** Whether predicate `p` holds of value `v`. */
  function Eval(p: Pred, v: Value, matches: Matcher): bool
  {
    match p
    case IsNum => v.Num?
    case IsStr => v.Str?
    case IsBool => v.Bool?
    case NumCmp(op, a) => CompareValue(op, v, a)
    case LenCmp(op, a) => CompareLength(op, v, a)
    case StrEq(s) => v == Str(s)
    case StrNe(s) => v != Str(s)
    case Int => v.Num? && IsInteger(v.n)
    case SafeInt => v.Num? && IsSafeInteger(v.n)
    case NotNaN => v != Num(NaN)
    case Finite => v.Num? && v.n.Fin?
    case Positive => CompareValue(Gt, v, 0.0)
    case Negative => CompareValue(Lt, v, 0.0)
    case NonEmpty => v != Str("")
    case Matches(re) => matches(re, v)
    case Factory(_) => true
  }

  /** Every predicate of `ps` holds of `v`. */
  predicate AllHold(ps: seq<Pred>, v: Value, matches: Matcher)
  {
    forall j :: 0 <= j < |ps| ==> Eval(ps[j], v, matches)
  }

  /**
   * The semantics of the comparators as JS defines them: on NaN, on both
   * infinities and on finite numbers under every operator; a string's
   * length compares like a number; anything without a `length` compares
   * `undefined`, which satisfies only `!==`.
   */
  lemma ComparatorSemantics(op: Op, x: real, a: real, s: string, v: Value, m: Matcher)
    ensures Eval(NumCmp(op, a), Num(NaN), m) <==> op == Ne
    ensures Eval(NumCmp(op, a), Num(PosInf), m) <==> op == Ne || op == Gt || op == Ge
    ensures Eval(NumCmp(op, a), Num(NegInf), m) <==> op == Ne || op == Lt || op == Le
    ensures Eval(NumCmp(Ne, a), Num(Fin(x)), m) <==> x != a
    ensures Eval(NumCmp(Eq, a), Num(Fin(x)), m) <==> x == a
    ensures Eval(NumCmp(Lt, a), Num(Fin(x)), m) <==> x < a
    ensures Eval(NumCmp(Le, a), Num(Fin(x)), m) <==> x <= a
    ensures Eval(NumCmp(Gt, a), Num(Fin(x)), m) <==> x > a
    ensures Eval(NumCmp(Ge, a), Num(Fin(x)), m) <==> x >= a
    ensures Eval(LenCmp(op, a), Str(s), m) <==> Eval(NumCmp(op, a), Num(Fin(|s| as real)), m)
    ensures !v.Str? ==> (Eval(LenCmp(op, a), v, m) <==> op == Ne)
  {
  }

  /** `safe int` implies `int`, `int` implies `finite`, `finite` implies `defined`. */
  lemma NumberWordsImply(v: Value, m: Matcher)
    ensures Eval(SafeInt, v, m) ==> Eval(Int, v, m)
    ensures Eval(Int, v, m) ==> Eval(Finite, v, m)
    ensures Eval(Finite, v, m) ==> Eval(NotNaN, v, m)
    ensures !Eval(NotNaN, Num(NaN), m) && !Eval(Finite, Num(PosInf), m) && !Eval(Finite, Num(NegInf), m)
  {
  }

  /** `positive` and `negative` are `> 0` and `< 0`, and exclude each other. */
  lemma SignWords(v: Value, m: Matcher)
    ensures Eval(Positive, v, m) <==> Eval(NumCmp(Gt, 0.0), v, m)
    ensures Eval(Negative, v, m) <==> Eval(NumCmp(Lt, 0.0), v, m)
    ensures !(Eval(Positive, v, m) && Eval(Negative, v, m))
  {
  }

  /** `=== s` and `!== s` are complementary, and strict: only the string `s` itself is equal. */
  lemma StringEqualityStrict(s: string, v: Value, m: Matcher)
    ensures Eval(StrNe(s), v, m) <==> !Eval(StrEq(s), v, m)
    ensures Eval(StrEq(s), v, m) ==> v.Str? && v.s == s
  {
  }

  /**
   * The ordering comparisons convert their candidate first: a boolean
   * compares as 0 or 1, a plain object (NaN) never satisfies one.
   */
  lemma OrderingCoercion(op: Op, b: bool, a: real, m: Matcher)
    requires op != Eq && op != Ne
    ensures Eval(NumCmp(op, a), Bool(b), m) <==> Eval(NumCmp(op, a), Num(Fin(if b then 1.0 else 0.0)), m)
    ensures !Eval(NumCmp(op, a), Other, m)
  {
  }
}
