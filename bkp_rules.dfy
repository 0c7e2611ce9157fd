/** The earlier validator (bkp.js) as functions: the two leaf checks, the
    rule table `validationRules` (block, elem, elems, mod, mods, val, tech),
    the field lists `validDeclFields` and `validInnerDeclFields`, and the
    walkers `validateDeclFields`, `validateSection`,
    `validateDepsDeclaration` and `validate`.

    Unlike the current variant this one reports kinds with `typeof`, keeps
    the error arrays nested (they are turned into text by `join` and
    `toString`, which separate nested items with commas), lets `elems` and
    `mods` return `true` on success, and has a `block` rule that can only
    return `undefined` or throw. */
module BkpRules {
  import opened JsValues
  import opened Messages

  /** An entry of an error array: a message, or a non-empty error array that
      was pushed whole. */
  datatype Err = Msg(text: string) | Group(items: seq<Err>)

  /** What a rule returns: `undefined`, `true`, a message, or an error
      array. */
  datatype Returned = NoValue | TrueValue | Message(text: string) | ErrorArray(errs: seq<Err>)

  /** What `validate` returns: `false`, or the text of every report. */
  datatype Report = NoErrors | Text(text: string)

  /** The own keys of `validationRules`. */
  const RuleNames: set<string> := {"block", "elem", "elems", "mod", "mods", "val", "tech"}

  /** `validDeclFields`, used for top-level declarations. */
  const ValidDeclFields: seq<string> :=
    ["block", "elem", "elems", "mod", "mods", "val", "tech", "mustDeps", "shouldDeps", "noDeps", "include"]

  /** `validInnerDeclFields`, used for the entries of a dependency section:
      the same names, `mods` and `mod` swapped. */
  const ValidInnerDeclFields: seq<string> :=
    ["block", "elem", "elems", "mods", "mod", "val", "tech", "mustDeps", "shouldDeps", "noDeps", "include"]

  // ---- turning errors into text ----

  /** `String(e)`: a message is itself, an array is `toString`, which joins
      its items with commas. */
  function ErrText(e: Err): (r: string)
    ensures WellFormed(e) ==> IsMessage(r)
    decreases e, 1
  {
    match e
    case Msg(s) => s
    case Group(items) => JoinErrs(items, ",")
  }

  /** `errs.join(sep)`. */
  function JoinErrs(errs: seq<Err>, sep: string): (r: string)
    ensures errs == [] ==> r == ""
    ensures |errs| == 1 ==> r == ErrText(errs[0])
    ensures errs != [] && AllWellFormed(errs) ==> IsMessage(r)
    decreases errs, 0
  {
    if errs == [] then ""
    else if |errs| == 1 then assert errs[0] in errs; ErrText(errs[0])
    else
      var first := ErrText(errs[0]);
      var rest := JoinErrs(errs[1..], sep);
      assert errs[0] in errs;
      if WellFormed(errs[0]) then
        PrefixIsMessage(first, sep + rest);
        assert first + sep + rest == first + (sep + rest);
        first + sep + rest
      else first + sep + rest
  }

  /** An error as the validator builds it: a message, or a non-empty array of
      such errors. */
  predicate WellFormed(e: Err) {
    match e
    case Msg(s) => IsMessage(s)
    case Group(items) => items != [] && forall x <- items :: WellFormed(x)
  }

  predicate AllWellFormed(errs: seq<Err>) {
    forall e <- errs :: WellFormed(e)
  }

  /** `(r || []).length` is truthy: a non-empty message or error array. A
      message is pushed under this test and under a plain `if (r)`, which
      agree on strings. */
  predicate Reportable(r: Returned) {
    (r.Message? && r.text != "") || (r.ErrorArray? && r.errs != [])
  }

  /** What `errors.push(r)` adds when `r` passes the test. */
  function Pushed(r: Returned): (errs: seq<Err>)
    ensures |errs| <= 1
    ensures errs == [] <==> !Reportable(r)
  {
    if !Reportable(r) then []
    else if r.Message? then [Msg(r.text)]
    else [Group(r.errs)]
  }

  /** The rule's result is a message or an error array the validator built. */
  predicate GoodReturn(r: Returned) {
    match r
    case Message(s) => IsMessage(s)
    case ErrorArray(errs) => AllWellFormed(errs)
    case _ => true
  }

  /** `errors.length ? errors : true`. */
  function OrTrue(errs: seq<Err>): (r: Returned)
    ensures r == TrueValue <==> errs == []
    ensures Reportable(r) <==> errs != []
  {
    if errs != [] then ErrorArray(errs) else TrueValue
  }

  // ---- leaf checks ----

  /** `simpleStringValidation`: `undefined` for a string, otherwise one
      message naming what `typeof` says, never the field. */
  function StringCheck(v: Value): (r: Returned)
    ensures r == NoValue <==> v.Str?
    ensures r != NoValue ==> r == Message(TypeMsg(TypeOf(v)))
  {
    var valueType := TypeOf(v);
    if valueType != "string" then Message(TypeMsg(valueType)) else NoValue
  }

  /** `simpleArrayWithStringValidation`: one message for the whole array
      when some item's `typeof` is not "string". */
  function ArrayCheck(items: seq<Value>): (r: Returned)
    ensures r == NoValue <==> forall i :: 0 <= i < |items| ==> items[i].Str?
    ensures r != NoValue ==> r == Message(ItemMsg)
  {
    if exists i :: 0 <= i < |items| && TypeOf(items[i]) != "string" then Message(ItemMsg) else NoValue
  }

  /** The `val` rule: a boolean passes, anything else goes through the string
      check. */
  function ValRule(v: Value): (r: Returned)
    ensures r == NoValue <==> (v.Bool? || v.Str?)
    ensures r != NoValue ==> r == Message(TypeMsg(TypeOf(v)))
  {
    if TypeOf(v) != "boolean" then StringCheck(v) else NoValue
  }

  /** One entry of an object-form `mods`. */
  function ModsEntry(inner: Value): (errs: seq<Err>)
    ensures |errs| <= 1
    ensures AllWellFormed(errs)
  {
    if inner.Arr? then Pushed(ArrayCheck(inner.items))
    else if TypeOf(inner) != "boolean" then Pushed(StringCheck(inner))
    else []
  }

  /** The entries `ms[i..]` of an object-form `mods`. */
  function ModsFrom(ms: seq<Member>, i: nat): (errs: seq<Err>)
    requires i <= |ms|
    ensures |errs| <= |ms| - i
    ensures AllWellFormed(errs)
    decreases |ms| - i
  {
    if i == |ms| then [] else ModsEntry(ms[i].val) + ModsFrom(ms, i + 1)
  }

  /** The `mods` rule: `true`, or the array of its messages. */
  function ModsRule(v: Value): (r: Returned)
    ensures r.TrueValue? || (r.ErrorArray? && r.errs != [])
    ensures GoodReturn(r)
  {
    if IsLengthlessObject(v) then OrTrue(ModsFrom(v.members, 0))
    else if v.Arr? then OrTrue(Pushed(ArrayCheck(v.items)))
    else OrTrue([Msg(ModsTypeMsg(TypeOf(v)))])
  }

  // ---- the rule table (mutually recursive through block and elems) ----

  /** `validationRules[k].valueValidation(v)` for an own key `k`. */
  function Rule(k: string, v: Value): (r: Outcome<Returned>)
    requires k in RuleNames
    ensures r.Done? ==> GoodReturn(r.value)
    decreases v, 5, 0
  {
    if k == "block" then BlockRule(v)
    else if k == "elem" || k == "mod" || k == "tech" then Done(StringCheck(v))
    else if k == "elems" then ElemsRule(v)
    else if k == "mods" then Done(ModsRule(v))
    else Done(ValRule(v))
  }

  /** `(validationRules[k] || {}).valueValidation(v)`: a key without an own
      rule yields `undefined` (or an inherited member without
      `valueValidation`), and calling that throws. */
  function LookupAndCall(k: string, v: Value): (r: Outcome<Returned>)
    ensures r.Done? ==> GoodReturn(r.value)
    ensures k !in RuleNames ==> r == Threw(TypeError)
    decreases v, 6, 0
  {
    if k in RuleNames then Rule(k, v) else Threw(TypeError)
  }

  /** The `block` rule. An object without a defined `length` runs the inner
      loop once per key; any other value has its string check discarded. */
  function BlockRule(v: Value): (r: Outcome<Returned>)
    ensures r.Done? ==> r.value == NoValue
    decreases v, 4, 0
  {
    if IsLengthlessObject(v) then
      var _ :- BlockOuter(v, 0);
      Done(NoValue)
    else
      var _ := StringCheck(v);
      Done(NoValue)
  }

  /** The outer `forEach` of `block`, from the `i`-th key on. */
  function BlockOuter(o: Value, i: nat): (r: Outcome<()>)
    requires o.Obj? && i <= |o.members|
    ensures i < |o.members| ==> (r.Done? <==> BlockPass(o, 0).Done?)
    decreases o, 3, |o.members| - i
  {
    if i == |o.members| then Done(())
    else
      var _ :- BlockPass(o, 0);
      BlockOuter(o, i + 1)
  }

  /** The inner `forEach` of `block`, from the `j`-th key on: each key's rule
      is called, and a reportable result is pushed onto the undeclared
      `errors`, which throws a ReferenceError. */
  function BlockPass(o: Value, j: nat): (r: Outcome<()>)
    requires o.Obj? && j <= |o.members|
    ensures r.Done? ==> forall l :: j <= l < |o.members| ==> o.members[l].key in RuleNames
    decreases o, 2, |o.members| - j
  {
    if j == |o.members| then Done(())
    else
      var m := o.members[j];
      assert m in o.members;
      var fieldValidation :- LookupAndCall(m.key, m.val);
      if Reportable(fieldValidation) then Threw(ReferenceError)
      else BlockPass(o, j + 1)
  }

  /** The `elems` rule: `true`, or the array of its errors. */
  function ElemsRule(v: Value): (r: Outcome<Returned>)
    ensures r.Done? ==> r.value.TrueValue? || (r.value.ErrorArray? && r.value.errs != [])
    ensures r.Done? ==> GoodReturn(r.value)
    decreases v, 4, 0
  {
    if TypeOf(v) == "string" then Done(OrTrue(Pushed(StringCheck(v))))
    else if IsLengthlessObject(v) then
      var errors :- ElemsFieldsFrom(v, 0);
      Done(OrTrue(errors))
    else if v.Arr? then Done(OrTrue(Pushed(ArrayCheck(v.items))))
    else Done(OrTrue([Msg(ElemsTypeMsg(TypeOf(v)))]))
  }

  /** The loop of an object-form `elems` from the `i`-th key on. */
  function ElemsFieldsFrom(o: Value, i: nat): (r: Outcome<seq<Err>>)
    requires o.Obj? && i <= |o.members|
    ensures r.Done? ==> AllWellFormed(r.value)
    decreases o, 1, |o.members| - i
  {
    if i == |o.members| then Done([])
    else
      var m := o.members[i];
      assert m in o.members;
      var fieldValidation :- LookupAndCall(m.key, m.val);
      var rest :- ElemsFieldsFrom(o, i + 1);
      Done(Pushed(fieldValidation) + rest)
  }

  // ---- the walkers ----

  /** `Object.keys(x)` with `x[key]` for an array: its index keys, which
      are pairwise distinct and start with a digit, so that none of them is
      a field name. */
  function IndexMembers(items: seq<Value>): (ms: seq<Member>)
    ensures |ms| == |items|
    ensures forall i :: 0 <= i < |items| ==> ms[i] == Member(Decimal(i), items[i])
    ensures forall a, b :: 0 <= a < b < |ms| ==> ms[a].key != ms[b].key
    ensures forall i :: 0 <= i < |ms| ==> ms[i].key != [] && '0' <= ms[i].key[0] <= '9'
  {
    IndexKeysDistinct(|items|);
    IndexKeysStartWithDigits(|items|);
    seq(|items|, i requires 0 <= i < |items| => Member(Decimal(i), items[i]))
  }

  /** `validateDeclFields(decl, validFields)`: the error array, empty for
      `undefined`. `typeof null` is "object" and `Object.keys(null)`
      throws. */
  function DeclFields(decl: Value, validFields: seq<string>): (r: Outcome<seq<Err>>)
    ensures r.Done? ==> AllWellFormed(r.value)
  {
    if TypeOf(decl) == "object" then
      match decl
      case Obj(ms) => DeclFieldsFrom(ms, validFields, 0)
      case Arr(items) => DeclFieldsFrom(IndexMembers(items), validFields, 0)
      case _ => Threw(TypeError)
    else Done([Msg(DeclTypeMsg(TypeOf(decl)))])
  }

  /** The loop of `validateDeclFields` from the `i`-th key on. */
  function DeclFieldsFrom(ms: seq<Member>, validFields: seq<string>, i: nat): (r: Outcome<seq<Err>>)
    requires i <= |ms|
    ensures r.Done? ==> AllWellFormed(r.value)
    decreases |ms| - i
  {
    if i == |ms| then Done([])
    else
      var here :- DeclField(ms[i].key, ms[i].val, validFields);
      var rest :- DeclFieldsFrom(ms, validFields, i + 1);
      Done(here + rest)
  }

  /** One key of `validateDeclFields`: outside the list it is one message,
      with an own rule its value is checked, otherwise it is skipped. */
  function DeclField(k: string, v: Value, validFields: seq<string>): (r: Outcome<seq<Err>>)
    ensures r.Done? ==> AllWellFormed(r.value) && |r.value| <= 1
  {
    if k !in validFields then Done([Msg(InvalidFieldMsg(k))])
    else if k in RuleNames then
      var fieldError :- Rule(k, v);
      Done(Pushed(fieldError))
    else Done([])
  }

  /** `validateSection(section)`: the error array, empty for `undefined`.
      `typeof null` is "object", so `null.length` is read, which throws. */
  function Section(section: Value): (r: Outcome<seq<Err>>)
    ensures r.Done? ==> AllWellFormed(r.value)
  {
    if section.Arr? then SectionEntriesFrom(section.items, 0)
    else if section.Null? then Threw(TypeError)
    else if section.Obj? && LengthUndefined(section.members) then
      var declErrors :- DeclFields(section, ValidInnerDeclFields);
      Done(if declErrors != [] then [Group(declErrors)] else [])
    else if TypeOf(section) != "string" then Done([Msg(DepsTypeMsg(TypeOf(section)))])
    else Done([])
  }

  /** The loop of an array section from the `i`-th entry on. */
  function SectionEntriesFrom(entries: seq<Value>, i: nat): (r: Outcome<seq<Err>>)
    requires i <= |entries|
    ensures r.Done? ==> AllWellFormed(r.value)
    decreases |entries| - i
  {
    if i == |entries| then Done([])
    else
      var here :- SectionEntry(entries[i]);
      var rest :- SectionEntriesFrom(entries, i + 1);
      Done(here + rest)
  }

  /** One entry of an array section: a string is skipped, anything else is
      walked as a declaration and its errors are pushed as one array. */
  function SectionEntry(decl: Value): (r: Outcome<seq<Err>>)
    ensures r.Done? ==> AllWellFormed(r.value) && |r.value| <= 1
  {
    if TypeOf(decl) != "string" then
      var innerDeclsErrors :- DeclFields(decl, ValidInnerDeclFields);
      Done(if innerDeclsErrors != [] then [Group(innerDeclsErrors)] else [])
    else Done([])
  }

  /** `decl[key]` for one of the section keys: an object's own property; any
      other value has none. Reading it from `null` or `undefined` throws. */
  function Property(decl: Value, key: string): (r: Outcome<Value>)
    requires key == "mustDeps" || key == "shouldDeps"
    ensures r.Threw? <==> decl.Null? || decl.Undefined?
  {
    match decl
    case Null => Threw(TypeError)
    case Undefined => Threw(TypeError)
    case Obj(ms) => Done(Get(ms, key))
    case _ => Done(Undefined)
  }

  /** `x.join('\n')` pushed when `(x || []).length` holds. */
  function Joined(errs: seq<Err>): (parts: seq<string>)
    ensures |parts| <= 1
    ensures parts == [] <==> errs == []
  {
    if errs != [] then [JoinErrs(errs, "\n")] else []
  }

  /** The section under `key`, when `decl[key]` is truthy. */
  function SectionParts(decl: Value, key: string): (r: Outcome<seq<string>>)
    requires key == "mustDeps" || key == "shouldDeps"
    ensures r.Done? ==> |r.value| <= 1
  {
    var section :- Property(decl, key);
    if Truthy(section) then
      var sectionErr :- Section(section);
      Done(Joined(sectionErr))
    else Done([])
  }

  /** The parts `validateDepsDeclaration` gathers: the declaration's own
      fields (only when it is truthy), then `mustDeps`, then `shouldDeps`. */
  function DeclarationParts(decl: Value): (r: Outcome<seq<string>>)
    ensures r.Done? ==> |r.value| <= 3
  {
    var declErr :- if Truthy(decl) then DeclFields(decl, ValidDeclFields) else Done([]);
    var mustErr :- SectionParts(decl, "mustDeps");
    var shouldErr :- SectionParts(decl, "shouldDeps");
    Done(Joined(declErr) + mustErr + shouldErr)
  }

  /** `validateDepsDeclaration(decl)`: the parts joined with newlines, or
      `undefined`. */
  function DeclarationMessage(decl: Value): (r: Outcome<Returned>)
    ensures r.Done? ==> r.value.NoValue? || r.value.Message?
  {
    var errors :- DeclarationParts(decl);
    if errors != [] then Done(Message(Join(errors, "\n"))) else Done(NoValue)
  }

  /** The reports of the declarations `ds[i..]` that are truthy strings. */
  function DeclarationsFrom(ds: seq<Value>, i: nat): (r: Outcome<seq<string>>)
    requires i <= |ds|
    ensures r.Done? <==> forall j :: i <= j < |ds| ==> DeclarationMessage(ds[j]).Done?
    ensures r.Done? ==> |r.value| <= |ds| - i
    decreases |ds| - i
  {
    if i == |ds| then Done([])
    else
      var declValidationRes :- DeclarationMessage(ds[i]);
      var rest :- DeclarationsFrom(ds, i + 1);
      Done(Reported(declValidationRes) + rest)
  }

  /** What `if (declValidationRes) validationRes.push(declValidationRes)`
      adds: a non-empty report. */
  function Reported(declValidationRes: Returned): (reports: seq<string>)
    ensures |reports| <= 1
  {
    if declValidationRes.Message? && declValidationRes.text != "" then [declValidationRes.text] else []
  }

  /** `validate(deps)`: `false`, or the reports joined by `toString`. */
  function Verdict(deps: Value): (r: Outcome<Report>)
    ensures r.Done? <==> forall d <- Declarations(deps) :: DeclarationMessage(d).Done?
  {
    var validationRes :- DeclarationsFrom(Declarations(deps), 0);
    if validationRes != [] then Done(Text(Join(validationRes, ","))) else Done(NoErrors)
  }
}
