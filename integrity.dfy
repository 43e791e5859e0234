/**
 * The interface registry of integrity.js: `register` compiles a
 * declaration into an interface and stores it under a fresh name;
 * `test` checks a candidate object against a registered interface.
 */
module Integrity {
  import opened Wrappers
  import opened Values
  import opened Predicates
  import opened Descriptors

  /** The names of keyed entries, in order. */
  function Keys<T>(entries: seq<(string, T)>): (ks: seq<string>)
    ensures |ks| == |entries|
    ensures forall i :: 0 <= i < |entries| ==> ks[i] == entries[i].0
  {
    seq(|entries|, i requires 0 <= i < |entries| => entries[i].0)
  }

  predicate Distinct(ks: seq<string>)
  {
    forall i, j :: 0 <= i < j < |ks| ==> ks[i] != ks[j]
  }

  /** A compiled interface: its properties in declaration order, each with its predicate list. */
  type Props = seq<(string, seq<Pred>)>

  datatype Interface = Interface(props: Props)

  /** A declaration `{key: {type, ...}, ...}`, its properties in `for-in` order. */
  type Declaration = seq<(string, PropertyDecl)>

  /** A candidate object: its own keys and their values. */
  type Subject = map<string, Value>

  /** Why `register` stores nothing: the four early exits of the source, the last one a thrown TypeError. */
  datatype RegisterError =
    | DuplicateName
    | DuplicateProperty(key: string)
    | MissingType(key: string)
    | TypeErrorThrown(key: string)

  datatype RegisterOutcome = Registered | Rejected(error: RegisterError)

  /** The loop of `register` over the declaration, with the properties compiled so far. */
  function CompileFrom(spec: Declaration, done: Props): Result<Props, RegisterError>
    decreases |spec|
  {
    if spec == [] then Ok(done)
    else
      var key := spec[0].0;
      var def := spec[0].1;
      if key in Keys(done) then Err(DuplicateProperty(key))
      else
        match GetInterfaceCheck(def)
        case BadType => Err(TypeErrorThrown(key))
        case NoType => Err(MissingType(key))
        case Check(ty) => CompileFrom(spec[1..], done + [(key, PropertyPreds(ty, def))])
  }

  /** The interface `register` builds from a declaration, or why it stops. */
  function Compile(spec: Declaration): Result<Interface, RegisterError>
  {
    match CompileFrom(spec, [])
    case Ok(props) => Ok(Interface(props))
    case Err(e) => Err(e)
  }

  /** A declaration every property of which has a known type, under distinct keys. */
  predicate Compilable(spec: Declaration)
  {
    && Distinct(Keys(spec))
    && forall i :: 0 <= i < |spec| ==> GetInterfaceCheck(spec[i].1).Check?
  }

  /** The reference definition: each property compiled on its own, in declaration order. */
  function CompiledProps(spec: Declaration): Props
    requires forall i :: 0 <= i < |spec| ==> GetInterfaceCheck(spec[i].1).Check?
  {
    seq(|spec|, i requires 0 <= i < |spec| =>
      (spec[i].0, PropertyPreds(GetInterfaceCheck(spec[i].1).ty, spec[i].1)))
  }

  /** The registry after `register(name, spec)`. */
  function AfterRegister(ifaces: map<string, Interface>, name: string, spec: Declaration): map<string, Interface>
  {
    if name in ifaces then ifaces
    else
      match Compile(spec)
      case Ok(iface) => ifaces[name := iface]
      case Err(_) => ifaces
  }

  /** What `register(name, spec)` reports. */
  function RegisterResult(ifaces: map<string, Interface>, name: string, spec: Declaration): RegisterOutcome
  {
    if name in ifaces then Rejected(DuplicateName)
    else
      match Compile(spec)
      case Ok(_) => Registered
      case Err(e) => Rejected(e)
  }

  /** The invariant of every stored interface: distinct property names, each list led by a membership test. */
  predicate WellFormed(iface: Interface)
  {
    && Distinct(Keys(iface.props))
    && forall i :: 0 <= i < |iface.props| ==>
         |iface.props[i].1| >= 1 && IsMembership(iface.props[i].1[0])
  }

  /** The candidate's keys are exactly the interface's property names. */
  predicate SameKeys(props: Props, subject: Subject)
  {
    && (forall k :: k in subject ==> k in Keys(props))
    && (forall i :: 0 <= i < |props| ==> props[i].0 in subject)
  }

  /** Every predicate of every property holds on the candidate's value for it. */
  predicate AllPropertiesHold(props: Props, subject: Subject, matches: Matcher)
  {
    forall i :: 0 <= i < |props| && props[i].0 in subject ==> AllHold(props[i].1, subject[props[i].0], matches)
  }

  /** What `test(name, subject)` answers. */
  predicate Accepts(ifaces: map<string, Interface>, name: string, subject: Subject, matches: Matcher)
  {
    && name in ifaces
    && SameKeys(ifaces[name].props, subject)
    && AllPropertiesHold(ifaces[name].props, subject, matches)
  }

  // ---------------------------------------------------------------------
  // Registration.

  lemma KeysAppend<T>(entries: seq<(string, T)>, e: (string, T))
    ensures Keys(entries + [e]) == Keys(entries) + [e.0]
  {
  }

  lemma CompiledPropsCons(spec: Declaration)
    requires spec != []
    requires forall i :: 0 <= i < |spec| ==> GetInterfaceCheck(spec[i].1).Check?
    ensures CompiledProps(spec) ==
      [(spec[0].0, PropertyPreds(GetInterfaceCheck(spec[0].1).ty, spec[0].1))] + CompiledProps(spec[1..])
  {
  }

  /**
   * `register`'s loop succeeds exactly on a declaration whose properties
   * all have a known type under distinct keys not yet compiled.
   */
  lemma {:induction false} CompileFromSucceeds(spec: Declaration, done: Props)
    ensures CompileFrom(spec, done).Ok? <==>
      Compilable(spec) && forall i :: 0 <= i < |spec| ==> spec[i].0 !in Keys(done)
    decreases |spec|
  {
    if spec != [] {
      var key := spec[0].0;
      var def := spec[0].1;
      var rest := spec[1..];
      assert forall i :: 0 <= i < |rest| ==> rest[i] == spec[i + 1];
      if key !in Keys(done) && GetInterfaceCheck(def).Check? {
        var ty := GetInterfaceCheck(def).ty;
        var done' := done + [(key, PropertyPreds(ty, def))];
        KeysAppend(done, (key, PropertyPreds(ty, def)));
        CompileFromSucceeds(rest, done');
        if CompileFrom(spec, done).Ok? {
          assert Distinct(Keys(spec)) by {
            forall i, j | 0 <= i < j < |spec| ensures Keys(spec)[i] != Keys(spec)[j] {
              if i == 0 {
                assert rest[j - 1].0 !in Keys(done');
              } else {
                assert Keys(rest)[i - 1] != Keys(rest)[j - 1];
              }
            }
          }
        }
        if Compilable(spec) && forall i :: 0 <= i < |spec| ==> spec[i].0 !in Keys(done) {
          assert Distinct(Keys(rest)) by {
            forall i, j | 0 <= i < j < |rest| ensures Keys(rest)[i] != Keys(rest)[j] {
              assert Keys(spec)[i + 1] != Keys(spec)[j + 1];
            }
          }
          forall i | 0 <= i < |rest| ensures rest[i].0 !in Keys(done') {
            assert Keys(spec)[0] != Keys(spec)[i + 1];
          }
        }
      } else {
        assert !(forall i :: 0 <= i < |spec| ==> spec[i].0 !in Keys(done) && GetInterfaceCheck(spec[i].1).Check?);
      }
    }
  }

  /** When `register`'s loop succeeds, it yields every property compiled on its own, in order. */
  lemma {:induction false} CompileFromValue(spec: Declaration, done: Props)
    requires CompileFrom(spec, done).Ok?
    ensures forall i :: 0 <= i < |spec| ==> GetInterfaceCheck(spec[i].1).Check?
    ensures CompileFrom(spec, done).value == done + CompiledProps(spec)
    decreases |spec|
  {
    if spec != [] {
      var key := spec[0].0;
      var def := spec[0].1;
      var rest := spec[1..];
      var ty := GetInterfaceCheck(def).ty;
      var done' := done + [(key, PropertyPreds(ty, def))];
      CompileFromValue(rest, done');
      assert forall i :: 0 <= i < |rest| ==> rest[i] == spec[i + 1];
      CompiledPropsCons(spec);
    }
  }

  /** `Compile` succeeds exactly on a compilable declaration, with every property compiled in order. */
  lemma CompileCharacterized(spec: Declaration)
    ensures Compile(spec).Ok? <==> Compilable(spec)
    ensures Compile(spec).Ok? ==> Compile(spec).value == Interface(CompiledProps(spec))
  {
    CompileFromSucceeds(spec, []);
    if Compile(spec).Ok? {
      CompileFromValue(spec, []);
    }
  }

  /**
   * Each error names the property that caused it: one without `type`, one
   * with an unknown tag, or a key seen before. The duplicate-property
   * error therefore never arises for distinct keys.
   */
  lemma {:induction false} CompileFromErrorLocated(spec: Declaration, done: Props)
    ensures forall k :: CompileFrom(spec, done) == Err(MissingType(k)) ==>
      exists i :: 0 <= i < |spec| && spec[i].0 == k && "type" !in spec[i].1
    ensures forall k :: CompileFrom(spec, done) == Err(TypeErrorThrown(k)) ==>
      exists i :: 0 <= i < |spec| && spec[i].0 == k && GetInterfaceCheck(spec[i].1).BadType?
    ensures forall k :: CompileFrom(spec, done) == Err(DuplicateProperty(k)) ==>
      exists j :: 0 <= j < |spec| && spec[j].0 == k && (k in Keys(done) || exists i :: 0 <= i < j && spec[i].0 == k)
    decreases |spec|
  {
    if spec != [] {
      var key := spec[0].0;
      var def := spec[0].1;
      var rest := spec[1..];
      if key !in Keys(done) && GetInterfaceCheck(def).Check? {
        var ty := GetInterfaceCheck(def).ty;
        var done' := done + [(key, PropertyPreds(ty, def))];
        KeysAppend(done, (key, PropertyPreds(ty, def)));
        CompileFromErrorLocated(rest, done');
        assert forall i :: 0 <= i < |rest| ==> rest[i] == spec[i + 1];
        forall k | CompileFrom(spec, done) == Err(DuplicateProperty(k))
          ensures exists j :: 0 <= j < |spec| && spec[j].0 == k && (k in Keys(done) || exists i :: 0 <= i < j && spec[i].0 == k)
        {
          var j :| 0 <= j < |rest| && rest[j].0 == k && (k in Keys(done') || exists i :: 0 <= i < j && rest[i].0 == k);
          assert spec[j + 1].0 == k;
          if k in Keys(done') {
            if k !in Keys(done) {
              assert spec[0].0 == k;
            }
          } else {
            var i :| 0 <= i < j && rest[i].0 == k;
            assert spec[i + 1].0 == k;
          }
        }
      }
    }
  }

  lemma CompileNeverDuplicatesDistinctKeys(spec: Declaration, k: string)
    requires Distinct(Keys(spec))
    ensures Compile(spec) != Err(DuplicateProperty(k))
  {
    CompileFromErrorLocated(spec, []);
  }

  /** Registering a name already present leaves the registry as it was. */
  lemma RegisterDuplicateName(ifaces: map<string, Interface>, name: string, spec: Declaration)
    requires name in ifaces
    ensures AfterRegister(ifaces, name, spec) == ifaces
    ensures RegisterResult(ifaces, name, spec) == Rejected(DuplicateName)
  {
  }

  /**
   * A property without `type` anywhere in the declaration makes `register`
   * store nothing, the properties compiled before it included.
   */
  lemma RegisterMissingType(ifaces: map<string, Interface>, name: string, spec: Declaration, i: int)
    requires 0 <= i < |spec| && "type" !in spec[i].1
    ensures AfterRegister(ifaces, name, spec) == ifaces
    ensures RegisterResult(ifaces, name, spec).Rejected?
  {
    CompileCharacterized(spec);
  }

  /**
   * A fresh name and a compilable declaration add exactly one entry, the
   * compiled interface, and leave every other entry as it was.
   */
  lemma RegisterAddsOne(ifaces: map<string, Interface>, name: string, spec: Declaration)
    requires name !in ifaces && Compilable(spec)
    ensures AfterRegister(ifaces, name, spec) == ifaces[name := Interface(CompiledProps(spec))]
    ensures AfterRegister(ifaces, name, spec).Keys == ifaces.Keys + {name}
    ensures RegisterResult(ifaces, name, spec) == Registered
  {
    CompileCharacterized(spec);
  }

  /** The registry only grows: no entry is ever changed or removed, and nothing but `name` is added. */
  lemma RegisterOnlyAdds(ifaces: map<string, Interface>, name: string, spec: Declaration)
    ensures ifaces.Keys <= AfterRegister(ifaces, name, spec).Keys <= ifaces.Keys + {name}
    ensures forall n :: n in ifaces ==> AfterRegister(ifaces, name, spec)[n] == ifaces[n]
    ensures RegisterResult(ifaces, name, spec).Rejected? ==> AfterRegister(ifaces, name, spec) == ifaces
  {
  }

  /** A compiled interface keeps the registry's invariant. */
  lemma CompiledWellFormed(spec: Declaration)
    requires Compilable(spec)
    ensures WellFormed(Interface(CompiledProps(spec)))
  {
    var props := CompiledProps(spec);
    assert Keys(props) == Keys(spec);
    forall i | 0 <= i < |props| ensures |props[i].1| >= 1 && IsMembership(props[i].1[0]) {
      PropertyShape(GetInterfaceCheck(spec[i].1).ty, spec[i].1);
    }
  }

  // ---------------------------------------------------------------------
  // Matching.

  /**
   * After a successful registration, `test` of the new name accepts a
   * candidate exactly when its keys are the declared ones and every
   * property's compiled predicates hold on its value.
   */
  lemma RegisterThenTest(ifaces: map<string, Interface>, name: string, spec: Declaration,
                         subject: Subject, matches: Matcher)
    requires name !in ifaces && Compilable(spec)
    ensures Accepts(AfterRegister(ifaces, name, spec), name, subject, matches) <==>
      && (forall k :: k in subject <==> k in Keys(spec))
      && forall i :: 0 <= i < |spec| ==>
           spec[i].0 in subject &&
           AllHold(PropertyPreds(GetInterfaceCheck(spec[i].1).ty, spec[i].1), subject[spec[i].0], matches)
  {
    RegisterAddsOne(ifaces, name, spec);
    var props := CompiledProps(spec);
    assert AfterRegister(ifaces, name, spec)[name].props == props;
    assert Keys(props) == Keys(spec);
    assert forall i :: 0 <= i < |spec| ==> props[i].0 == spec[i].0;
    assert forall i :: 0 <= i < |spec| ==>
      props[i].1 == PropertyPreds(GetInterfaceCheck(spec[i].1).ty, spec[i].1);
    assert SameKeys(props, subject) <==> (forall k :: k in subject <==> k in Keys(spec));
  }

  /** Registering one interface does not change the answers about any other. */
  lemma RegisterKeepsOtherAnswers(ifaces: map<string, Interface>, name: string, spec: Declaration,
                                  other: string, subject: Subject, matches: Matcher)
    requires other != name
    ensures Accepts(AfterRegister(ifaces, name, spec), other, subject, matches) == Accepts(ifaces, other, subject, matches)
  {
  }

  /** `$interfaces`: the process-wide registry, empty at start. */
  class Registry {
    var interfaces: map<string, Interface>

    ghost predicate Valid()
      reads this
    {
      forall n :: n in interfaces ==> WellFormed(interfaces[n])
    }

    constructor ()
      ensures Valid() && interfaces == map[]
    {
      interfaces := map[];
    }

    /** `register(name, spec)`. */
    method Register(name: string, spec: Declaration) returns (outcome: RegisterOutcome)
      requires Valid()
      modifies this
      ensures Valid()
      ensures interfaces == AfterRegister(old(interfaces), name, spec)
      ensures outcome == RegisterResult(old(interfaces), name, spec)
    {
      if name in interfaces {
        return Rejected(DuplicateName);
      }
      var iface: Props := [];
      var i := 0;
      while i < |spec|
        invariant 0 <= i <= |spec|
        invariant CompileFrom(spec[i..], iface) == CompileFrom(spec, [])
        invariant interfaces == old(interfaces)
      {
        var key := spec[i].0;
        var def := spec[i].1;
        assert spec[i..][1..] == spec[i + 1..];
        if key in Keys(iface) {
          return Rejected(DuplicateProperty(key));
        }
        var typecheck := GetInterfaceCheck(def);
        if typecheck.BadType? {
          return Rejected(TypeErrorThrown(key));
        }
        if typecheck.NoType? {
          return Rejected(MissingType(key));
        }
        var list := [Membership(typecheck.ty)];
        list := GetFlags(def, list);
        iface := iface + [(key, list)];
        i := i + 1;
      }
      assert spec[|spec|..] == [];
      CompileCharacterized(spec);
      CompiledWellFormed(spec);
      interfaces := interfaces[name := Interface(iface)];
      outcome := Registered;
    }

    /** `test(name, subject)`: name lookup, the superfluous-key loop, then per property the missing-key check and the predicates from last to first. */
    method Test(name: string, subject: Subject, matches: Matcher) returns (b: bool)
      requires Valid()
      ensures b == Accepts(interfaces, name, subject, matches)
      ensures b ==> forall i :: 0 <= i < |interfaces[name].props| ==>
        && IsMembership(interfaces[name].props[i].1[0])
        && Eval(interfaces[name].props[i].1[0], subject[interfaces[name].props[i].0], matches)
      ensures name !in interfaces ==> !b
      ensures name in interfaces && (exists k :: k in subject && k !in Keys(interfaces[name].props)) ==> !b
      ensures name in interfaces && (exists k :: k in Keys(interfaces[name].props) && k !in subject) ==> !b
    {
      if name !in interfaces {
        return false;
      }
      var props := interfaces[name].props;
      var keys := subject.Keys;
      while keys != {}
        invariant keys <= subject.Keys
        invariant forall k :: k in subject && k !in keys ==> k in Keys(props)
        decreases keys
      {
        var key :| key in keys;
        if key !in Keys(props) {
          return false;
        }
        keys := keys - {key};
      }
      for n := 0 to |props|
        invariant forall p :: 0 <= p < n ==> props[p].0 in subject
        invariant forall p :: 0 <= p < n ==> AllHold(props[p].1, subject[props[p].0], matches)
      {
        var key := props[n].0;
        if key !in subject {
          return false;
        }
        var item := subject[key];
        var list := props[n].1;
        var i := |list| - 1;
        while i + 1 != 0
          invariant -1 <= i < |list|
          invariant forall j :: i < j < |list| ==> Eval(list[j], item, matches)
          decreases i + 1
        {
          if !Eval(list[i], item, matches) {
            return false;
          }
          i := i - 1;
        }
      }
      return true;
    }
  }
}
