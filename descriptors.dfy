/**
 * The three type descriptors (`$types.number`, `$types.string`,
 * `$types.boolean`) and the flag compiler: which declaration keys each
 * type allows, and how a property declaration's flags become predicates.
 *
 * The pure part is specified by functions; the compilation itself is
 * written as methods that append to a predicate list, as the source
 * pushes into its `array`.
 */
module Descriptors {
  import opened Wrappers
  import opened Values
  import opened Tokens
  import opened Predicates

  /** The closed set of base types. */
  datatype Ty = Number | String | Boolean

  /** What a declaration key holds: a text, an array of tokens, a RegExp, or anything else. */
  datatype DeclValue = Text(s: string) | List(items: seq<string>) | Pattern(re: Regex) | Opaque

  /** A property declaration `{type, flags?, length?, test?, ...}`. */
  type PropertyDecl = map<string, DeclValue>

  /** The tag `type` must hold for each base type. */
  function TypeName(ty: Ty): string
  {
    match ty
    case Number => "number"
    case String => "string"
    case Boolean => "boolean"
  }

  /** Each descriptor's `is`. */
  function Membership(ty: Ty): Pred
  {
    match ty
    case Number => IsNum
    case String => IsStr
    case Boolean => IsBool
  }

  predicate IsMembership(p: Pred)
  {
    p == IsNum || p == IsStr || p == IsBool
  }

  /** A value passes at most one membership test. */
  lemma MembershipDisjoint(t1: Ty, t2: Ty, v: Value, m: Matcher)
    requires Eval(Membership(t1), v, m) && Eval(Membership(t2), v, m)
    ensures t1 == t2
  {
  }

  /**
   * Each descriptor's `allowedFlags` pattern: `/flags/` for number,
   * `/length|flags|test/` for string, `/^$/` for boolean.
   */
  predicate KeyAllowed(ty: Ty, key: string)
  {
    match ty
    case Number => Contains(key, "flags")
    case String => Contains(key, "length") || Contains(key, "flags") || Contains(key, "test")
    case Boolean => key == ""
  }

  /** Every key other than `type` passes the type's pattern. */
  predicate KeysAllowed(ty: Ty, def: PropertyDecl)
  {
    forall k :: k in def && k != "type" ==> KeyAllowed(ty, k)
  }

  /**
   * The key patterns are unanchored: any key containing `flags` passes
   * for a number, and any containing `length`, `flags` or `test` for a
   * string; the boolean pattern is anchored and passes only the empty key.
   */
  lemma AllowedKeysUnanchored(key: string, p: string, q: string)
    ensures KeyAllowed(Number, p + "flags" + q)
    ensures KeyAllowed(String, p + "flags" + q) && KeyAllowed(String, p + "length" + q) && KeyAllowed(String, p + "test" + q)
    ensures KeyAllowed(Number, key) ==> KeyAllowed(String, key)
    ensures KeyAllowed(Boolean, key) <==> key == ""
  {
    assert "flags" <= (p + "flags" + q)[|p|..];
    assert "length" <= (p + "length" + q)[|p|..];
    assert "test" <= (p + "test" + q)[|p|..];
  }

  /** The outcome of `getInterfaceCheck`: no `type` key, a tag `$types` lacks (a TypeError), or a type. */
  datatype TypeCheck = NoType | BadType | Check(ty: Ty)

  /** `getInterfaceCheck(def)`: the membership test of the declared type. */
  function GetInterfaceCheck(def: PropertyDecl): (r: TypeCheck)
    ensures r.NoType? <==> "type" !in def
    ensures r.Check? ==> "type" in def && def["type"] == Text(TypeName(r.ty))
    ensures r.BadType? ==> "type" in def && forall ty :: def["type"] != Text(TypeName(ty))
  {
    if "type" !in def then NoType
    else if def["type"] == Text("number") then Check(Number)
    else if def["type"] == Text("string") then Check(String)
    else if def["type"] == Text("boolean") then Check(Boolean)
    else BadType
  }

  /** `key in def && Array.isArray(def[key])`: the tokens under `key`, or none. */
  function TokensAt(def: PropertyDecl, key: string): seq<string>
  {
    if key in def && def[key].List? then def[key].items else []
  }

  /** `flag in this.number` for the number descriptor's vocabulary. */
  function NumberWord(t: string): Option<Pred>
  {
    match ParseOp(t)
    case Some(op) => Some(Factory(op))
    case None =>
      if t == "int" then Some(Int)
      else if t == "safe int" then Some(SafeInt)
      else if t == "defined" then Some(NotNaN)
      else if t == "finite" then Some(Finite)
      else if t == "positive" then Some(Positive)
      else if t == "negative" then Some(Negative)
      else None
  }

  /**
   * The number vocabulary: each operator key finds its own factory, and a
   * factory is only found under its operator's spelling; the six words
   * find their tests.
   */
  lemma NumberWords(op: Op, t: string)
    ensures NumberWord(OpText(op)) == Some(Factory(op))
    ensures NumberWord(t).Some? && NumberWord(t).value.Factory? ==> t == OpText(NumberWord(t).value.op)
    ensures NumberWord("int") == Some(Int) && NumberWord("safe int") == Some(SafeInt)
    ensures NumberWord("defined") == Some(NotNaN) && NumberWord("finite") == Some(Finite)
    ensures NumberWord("positive") == Some(Positive) && NumberWord("negative") == Some(Negative)
  {
    ParseOpText(op);
  }

  /** `flag in this.flags` for the string descriptor's vocabulary. */
  function StringWord(t: string): Option<Pred>
  {
    if t == "!==" then Some(Factory(Ne))
    else if t == "===" then Some(Factory(Eq))
    else if t == "defined" then Some(NonEmpty)
    else None
  }

  /** Whose comparator table `getFlagsNumeric` reads as `this.number`. */
  datatype Table = ValueTable | LengthTable

  function Comparator(table: Table, op: Op, a: real): Pred
  {
    match table
    case ValueTable => NumCmp(op, a)
    case LengthTable => LenCmp(op, a)
  }

  /** What `getFlagsNumeric` pushes: one comparator for a token of the grammar, else nothing. */
  function NumericFlagPreds(table: Table, t: string): seq<Pred>
  {
    match MatchNumericFlag(t)
    case None => []
    case Some((op, lit)) => [Comparator(table, op, LiteralValue(lit))]
  }

  /** What `getFlagsString` pushes: one equality test for a token of the grammar, else nothing. */
  function StringFlagPreds(t: string): seq<Pred>
  {
    match MatchStringFlag(t)
    case None => []
    case Some((op, s)) => if op == Eq then [StrEq(s)] else [StrNe(s)]
  }

  /** The three token lists a declaration can carry. */
  datatype TokenKind = NumberFlags | LengthFlags | StringFlags

  /** What one token of a list pushes. */
  function TokenPreds(kind: TokenKind, t: string): seq<Pred>
  {
    match kind
    case NumberFlags =>
      (match NumberWord(t) case Some(p) => [p] case None => NumericFlagPreds(ValueTable, t))
    case LengthFlags => NumericFlagPreds(LengthTable, t)
    case StringFlags =>
      (match StringWord(t) case Some(p) => [p] case None => StringFlagPreds(t))
  }

  /** Concatenates what `f` makes of each token, in order. */
  function FlatMap(ts: seq<string>, f: string -> seq<Pred>): seq<Pred>
  {
    if ts == [] then [] else FlatMap(ts[..|ts| - 1], f) + f(ts[|ts| - 1])
  }

  /** What a list of tokens pushes, token by token. */
  function TokensPreds(kind: TokenKind, ts: seq<string>): seq<Pred>
  {
    FlatMap(ts, t => TokenPreds(kind, t))
  }

  lemma FlatMapSnoc(ts: seq<string>, t: string, f: string -> seq<Pred>)
    ensures FlatMap(ts + [t], f) == FlatMap(ts, f) + f(t)
  {
    assert (ts + [t])[..|ts|] == ts;
  }

  lemma TokensPredsStep(kind: TokenKind, ts: seq<string>, i: nat)
    requires i < |ts|
    ensures TokensPreds(kind, ts[..i + 1]) == TokensPreds(kind, ts[..i]) + TokenPreds(kind, ts[i])
  {
    assert ts[..i + 1] == ts[..i] + [ts[i]];
    FlatMapSnoc(ts[..i], ts[i], t => TokenPreds(kind, t));
  }

  /** The `test` key: a RegExp under it pushes a match test. */
  function PatternPreds(def: PropertyDecl): seq<Pred>
  {
    if "test" in def && def["test"].Pattern? then [Matches(def["test"].re)] else []
  }

  /** What the descriptor's own `getFlags` pushes (boolean has none). */
  function DescriptorPreds(ty: Ty, def: PropertyDecl): seq<Pred>
  {
    match ty
    case Number => TokensPreds(NumberFlags, TokensAt(def, "flags"))
    case String =>
      PatternPreds(def)
      + TokensPreds(LengthFlags, TokensAt(def, "length"))
      + TokensPreds(StringFlags, TokensAt(def, "flags"))
    case Boolean => []
  }

  /** What `getFlags` pushes: nothing when a key is not allowed. */
  function FlagPreds(ty: Ty, def: PropertyDecl): seq<Pred>
  {
    if KeysAllowed(ty, def) then DescriptorPreds(ty, def) else []
  }

  /** The compiled predicate list of a property of type `ty`. */
  function PropertyPreds(ty: Ty, def: PropertyDecl): seq<Pred>
  {
    [Membership(ty)] + FlagPreds(ty, def)
  }

  // ---------------------------------------------------------------------
  // What the compiled lists are made of.

  /** The predicates a token list of each kind can produce. */
  predicate KindPred(kind: TokenKind, p: Pred)
  {
    match kind
    case NumberFlags =>
      p.NumCmp? || p.Factory? || p in [Int, SafeInt, NotNaN, Finite, Positive, Negative]
    case LengthFlags => p.LenCmp?
    case StringFlags => p.StrEq? || p.StrNe? || p == NonEmpty || p == Factory(Ne) || p == Factory(Eq)
  }

  /** The predicates each descriptor can add after its membership test. */
  predicate DescriptorPred(ty: Ty, p: Pred)
  {
    match ty
    case Number => KindPred(NumberFlags, p)
    case String => p.Matches? || KindPred(LengthFlags, p) || KindPred(StringFlags, p)
    case Boolean => false
  }

  lemma {:induction false} FlatMapAppend(a: seq<string>, b: seq<string>, f: string -> seq<Pred>)
    ensures FlatMap(a + b, f) == FlatMap(a, f) + FlatMap(b, f)
    decreases |b|
  {
    if b == [] {
      assert a + b == a;
    } else {
      var b', t := b[..|b| - 1], b[|b| - 1];
      assert b == b' + [t];
      assert a + b == (a + b') + [t];
      FlatMapSnoc(a + b', t, f);
      FlatMapSnoc(b', t, f);
      FlatMapAppend(a, b', f);
    }
  }

  /** A token list compiles token by token, in order. */
  lemma TokensPredsAppend(kind: TokenKind, a: seq<string>, b: seq<string>)
    ensures TokensPreds(kind, a + b) == TokensPreds(kind, a) + TokensPreds(kind, b)
  {
    FlatMapAppend(a, b, t => TokenPreds(kind, t));
  }

  /** One token adds at most one predicate, of its list's kind. */
  lemma TokenPredsBound(kind: TokenKind, t: string)
    ensures |TokenPreds(kind, t)| <= 1
    ensures AllKindPreds(kind, TokenPreds(kind, t))
  {
    match kind
    case NumberFlags =>
      var w := NumberWord(t);
      if w.Some? {
        assert TokenPreds(kind, t) == [w.value];
        assert KindPred(kind, w.value);
      } else {
        assert TokenPreds(kind, t) == NumericFlagPreds(ValueTable, t);
      }
    case LengthFlags =>
      assert TokenPreds(kind, t) == NumericFlagPreds(LengthTable, t);
    case StringFlags =>
      var w := StringWord(t);
      if w.Some? {
        assert TokenPreds(kind, t) == [w.value];
        assert KindPred(kind, w.value);
      } else {
        assert TokenPreds(kind, t) == StringFlagPreds(t);
      }
  }

  lemma {:induction false} FlatMapBound(ts: seq<string>, f: string -> seq<Pred>, kind: TokenKind)
    requires forall t :: |f(t)| <= 1 && AllKindPreds(kind, f(t))
    ensures |FlatMap(ts, f)| <= |ts|
    ensures AllKindPreds(kind, FlatMap(ts, f))
    decreases |ts|
  {
    if ts != [] {
      var ts', t := ts[..|ts| - 1], ts[|ts| - 1];
      FlatMapBound(ts', f, kind);
      var a, b := FlatMap(ts', f), f(t);
      assert FlatMap(ts, f) == a + b;
      forall j | 0 <= j < |a + b| ensures KindPred(kind, (a + b)[j]) {
        if j >= |a| {
          assert (a + b)[j] == b[j - |a|];
        }
      }
    }
  }

  /** A token list adds at most one predicate per token, all of its kind. */
  lemma TokensPredsBound(kind: TokenKind, ts: seq<string>)
    ensures |TokensPreds(kind, ts)| <= |ts|
    ensures AllKindPreds(kind, TokensPreds(kind, ts))
  {
    var f := t => TokenPreds(kind, t);
    forall t ensures |f(t)| <= 1 && AllKindPreds(kind, f(t)) {
      TokenPredsBound(kind, t);
    }
    FlatMapBound(ts, f, kind);
  }

  predicate AllKindPreds(kind: TokenKind, ps: seq<Pred>)
  {
    forall j :: 0 <= j < |ps| ==> KindPred(kind, ps[j])
  }

  predicate AllDescriptorPreds(ty: Ty, ps: seq<Pred>)
  {
    forall j :: 0 <= j < |ps| ==> DescriptorPred(ty, ps[j])
  }

  lemma AllDescriptorPredsConcat(ty: Ty, a: seq<Pred>, b: seq<Pred>)
    requires AllDescriptorPreds(ty, a) && AllDescriptorPreds(ty, b)
    ensures AllDescriptorPreds(ty, a + b)
  {
    forall j | 0 <= j < |a + b| ensures DescriptorPred(ty, (a + b)[j]) {
      if j >= |a| {
        assert (a + b)[j] == b[j - |a|];
      }
    }
  }

  /** The string descriptor's additions, all from its vocabulary. */
  lemma StringPredsVocabulary(def: PropertyDecl)
    ensures AllDescriptorPreds(String, DescriptorPreds(String, def))
  {
    var pat := PatternPreds(def);
    var len := TokensPreds(LengthFlags, TokensAt(def, "length"));
    var str := TokensPreds(StringFlags, TokensAt(def, "flags"));
    TokensPredsBound(LengthFlags, TokensAt(def, "length"));
    TokensPredsBound(StringFlags, TokensAt(def, "flags"));
    assert AllDescriptorPreds(String, len);
    assert AllDescriptorPreds(String, str);
    AllDescriptorPredsConcat(String, pat, len);
    AllDescriptorPredsConcat(String, pat + len, str);
  }

  /**
   * A compiled property: the membership test first, then only predicates
   * of its descriptor's vocabulary; just the membership test when a key
   * is not allowed, and always for a boolean.
   */
  lemma PropertyShape(ty: Ty, def: PropertyDecl)
    ensures |PropertyPreds(ty, def)| >= 1 && PropertyPreds(ty, def)[0] == Membership(ty)
    ensures forall j :: 1 <= j < |PropertyPreds(ty, def)| ==> DescriptorPred(ty, PropertyPreds(ty, def)[j])
    ensures !KeysAllowed(ty, def) || ty == Boolean ==> PropertyPreds(ty, def) == [Membership(ty)]
  {
    var flags := FlagPreds(ty, def);
    if KeysAllowed(ty, def) {
      match ty
      case Number =>
        TokensPredsBound(NumberFlags, TokensAt(def, "flags"));
      case String =>
        StringPredsVocabulary(def);
      case Boolean =>
    }
    assert forall j :: 0 <= j < |flags| ==> DescriptorPred(ty, flags[j]);
    assert forall j :: 1 <= j < |PropertyPreds(ty, def)| ==> PropertyPreds(ty, def)[j] == flags[j - 1];
  }

  /** A value outside the declared type fails the property, whatever its flags. */
  lemma PropertyRequiresMembership(ty: Ty, def: PropertyDecl, v: Value, m: Matcher)
    requires AllHold(PropertyPreds(ty, def), v, m)
    ensures Eval(Membership(ty), v, m)
  {
    assert PropertyPreds(ty, def)[0] == Membership(ty);
  }

  /** The only bare word of `number.flags` with a space in it is `safe int`. */
  lemma NumberWordSpaced(t: string)
    requires NumberWord(t).Some? && ' ' in t
    ensures t == "safe int"
  {
    if ParseOp(t).Some? {
      ParseOpText(ParseOp(t).value);
    }
  }

  /**
   * A numeric token of the grammar adds exactly one comparator, with the
   * operator before the first space and the literal after it: `b op a` in
   * `number.flags`, `b.length op a` in `string.length`.
   */
  lemma NumericTokenCompiles(op: Op, lit: string)
    requires IsNumLiteral(lit)
    ensures TokenPreds(NumberFlags, OpText(op) + " " + lit) == [NumCmp(op, LiteralValue(lit))]
    ensures TokenPreds(LengthFlags, OpText(op) + " " + lit) == [LenCmp(op, LiteralValue(lit))]
  {
    var t := OpText(op) + " " + lit;
    NumericFlagComplete(op, lit);
    assert t[|OpText(op)|] == ' ';
    if NumberWord(t).Some? {
      NumberWordSpaced(t);
      assert false;
    }
  }

  /** A token outside its list's vocabulary and grammar adds nothing, whatever the other list's grammar says. */
  lemma MalformedTokenSkipped(kind: TokenKind, t: string)
    requires kind == NumberFlags ==> NumberWord(t).None? && MatchNumericFlag(t).None?
    requires kind == LengthFlags ==> MatchNumericFlag(t).None?
    requires kind == StringFlags ==> StringWord(t).None? && MatchStringFlag(t).None?
    ensures TokenPreds(kind, t) == []
  {
  }

  /**
   * A string token of the grammar adds one equality test whose operand is
   * the whole remainder after the first space, spaces included.
   */
  lemma StringTokenCompiles(op: Op, s: string)
    requires op == Ne || op == Eq
    requires IsLineText(s)
    ensures TokenPreds(StringFlags, OpText(op) + " " + s) == if op == Eq then [StrEq(s)] else [StrNe(s)]
  {
    var t := OpText(op) + " " + s;
    StringFlagComplete(op, s);
    assert |t| > 4;
  }

  /** The bare words of `string.flags`: `defined` means not the empty string. */
  lemma StringWords(v: Value, m: Matcher)
    ensures TokenPreds(StringFlags, "defined") == [NonEmpty]
    ensures Eval(NonEmpty, v, m) <==> v != Str("")
    ensures TokenPreds(StringFlags, "!==") == [Factory(Ne)] && Eval(Factory(Ne), v, m)
    ensures TokenPreds(StringFlags, "===") == [Factory(Eq)] && Eval(Factory(Eq), v, m)
  {
  }

  // ---------------------------------------------------------------------
  // The compiler, as the source runs it.

  /** `getFlagsNumeric`: test the grammar, split at the first space, push one comparator. */
  method GetFlagsNumeric(table: Table, flag: string, list: seq<Pred>) returns (list': seq<Pred>)
    ensures list' == list + NumericFlagPreds(table, flag)
  {
    if MatchNumericFlag(flag).None? {
      return list;
    }
    var i := IndexOf(flag, ' ');
    var op := ParseOp(flag[..i]);
    list' := list + [Comparator(table, op.value, LiteralValue(flag[i + 1..]))];
  }

  /** `getFlagsString`: test the grammar, split at the first space, push one equality test. */
  method GetFlagsString(flag: string, list: seq<Pred>) returns (list': seq<Pred>)
    ensures list' == list + StringFlagPreds(flag)
  {
    if MatchStringFlag(flag).None? {
      return list;
    }
    var i := IndexOf(flag, ' ');
    var op := ParseOp(flag[..i]);
    var operand := flag[i + 1..];
    if op.value == Eq {
      list' := list + [StrEq(operand)];
    } else {
      list' := list + [StrNe(operand)];
    }
  }

  /** The number descriptor's `getFlags`. */
  method NumberGetFlags(def: PropertyDecl, list: seq<Pred>) returns (list': seq<Pred>)
    ensures list' == list + DescriptorPreds(Number, def)
  {
    list' := list;
    var flags := TokensAt(def, "flags");
    assert flags[..0] == [];
    for i := 0 to |flags|
      invariant list' == list + TokensPreds(NumberFlags, flags[..i])
    {
      TokensPredsStep(NumberFlags, flags, i);
      var flag := flags[i];
      var word := NumberWord(flag);
      if word.Some? {
        list' := list' + [word.value];
      } else {
        list' := GetFlagsNumeric(ValueTable, flag, list');
      }
    }
    assert flags[..|flags|] == flags;
  }

  /** The `length` loop of the string descriptor's `getFlags`. */
  method LengthGetFlags(lengths: seq<string>, list: seq<Pred>) returns (list': seq<Pred>)
    ensures list' == list + TokensPreds(LengthFlags, lengths)
  {
    list' := list;
    assert lengths[..0] == [];
    for i := 0 to |lengths|
      invariant list' == list + TokensPreds(LengthFlags, lengths[..i])
    {
      TokensPredsStep(LengthFlags, lengths, i);
      list' := GetFlagsNumeric(LengthTable, lengths[i], list');
    }
    assert lengths[..|lengths|] == lengths;
  }

  /** The `flags` loop of the string descriptor's `getFlags`. */
  method StringFlagsGetFlags(flags: seq<string>, list: seq<Pred>) returns (list': seq<Pred>)
    ensures list' == list + TokensPreds(StringFlags, flags)
  {
    list' := list;
    assert flags[..0] == [];
    for i := 0 to |flags|
      invariant list' == list + TokensPreds(StringFlags, flags[..i])
    {
      TokensPredsStep(StringFlags, flags, i);
      var flag := flags[i];
      var word := StringWord(flag);
      if word.Some? {
        list' := list' + [word.value];
      } else {
        list' := GetFlagsString(flag, list');
      }
    }
    assert flags[..|flags|] == flags;
  }

  /** The string descriptor's `getFlags`: the pattern, then `length`, then `flags`. */
  method StringGetFlags(def: PropertyDecl, list: seq<Pred>) returns (list': seq<Pred>)
    ensures list' == list + DescriptorPreds(String, def)
  {
    list' := list;
    if "test" in def && def["test"].Pattern? {
      list' := list' + [Matches(def["test"].re)];
    }
    assert list' == list + PatternPreds(def);
    var lengths := TokensAt(def, "length");
    var flags := TokensAt(def, "flags");
    list' := LengthGetFlags(lengths, list');
    list' := StringFlagsGetFlags(flags, list');
    assert list' == list + PatternPreds(def) + TokensPreds(LengthFlags, lengths) + TokensPreds(StringFlags, flags);
    assert DescriptorPreds(String, def) == PatternPreds(def) + TokensPreds(LengthFlags, lengths) + TokensPreds(StringFlags, flags);
    AppendAssoc(list, PatternPreds(def), TokensPreds(LengthFlags, lengths), TokensPreds(StringFlags, flags));
  }

  lemma AppendAssoc<T>(a: seq<T>, b: seq<T>, c: seq<T>, d: seq<T>)
    ensures a + b + c + d == a + (b + c + d)
  {
  }

  /** `getFlags`: check every key against the type's pattern, then run the descriptor's `getFlags`. */
  method GetFlags(def: PropertyDecl, list: seq<Pred>) returns (list': seq<Pred>)
    requires GetInterfaceCheck(def).Check?
    ensures list' == list + FlagPreds(GetInterfaceCheck(def).ty, def)
  {
    var ty := GetInterfaceCheck(def).ty;
    var keys := def.Keys;
    while keys != {}
      invariant keys <= def.Keys
      invariant forall k :: k in def && k !in keys && k != "type" ==> KeyAllowed(ty, k)
      decreases keys
    {
      var key :| key in keys;
      if key != "type" && !KeyAllowed(ty, key) {
        return list;
      }
      keys := keys - {key};
    }
    match ty
    case Number =>
      list' := NumberGetFlags(def, list);
    case String =>
      list' := StringGetFlags(def, list);
    case Boolean =>
      list' := list;
  }
}
