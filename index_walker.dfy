/** The current validator (index.js) as the loops it is written with: each
    walker gathers its messages in a local `errors` list inside a loop over
    keys or items, and each is proved to compute the function of
    `IndexRules` that specifies it. The input tree is only read. */
module IndexWalker {
  import opened JsValues
  import opened Messages
  import opened IndexRules

  /** `validationRules[k].valueValidation(v)`. */
  method CheckRule(k: string, v: Value) returns (r: Outcome<seq<string>>)
    requires k in RuleNames
    ensures r == Rule(k, v)
    decreases v, 5, 0
  {
    if k == "block" {
      r := CheckBlock(v);
    } else if k == "elem" {
      r := Done(StringCheck(v, "elem"));
    } else if k == "elems" {
      r := CheckElems(v);
    } else if k == "mod" {
      r := Done(StringCheck(v, "mod"));
    } else if k == "mods" {
      var errors := CheckMods(v);
      r := Done(errors);
    } else if k == "val" {
      r := Done(ValRule(v));
    } else if k == "tech" {
      r := Done(StringCheck(v, "tech"));
    } else if k == "mustDeps" {
      r := CheckDeps(v, true);
    } else {
      r := CheckDeps(v, false);
    }
  }

  /** One iteration of the loops of `block`, `elems` and
      `validateDepsDeclaration`. */
  method CheckField(field: string, v: Value) returns (r: Outcome<seq<string>>)
    ensures r == FieldByRule(field, v)
    decreases v, 6, 0
  {
    if field in RuleNames {
      r := CheckRule(field, v);
    } else if field in ObjectPrototypeNames {
      r := Threw(TypeError);
    } else if field !in ValidDeclFields {
      r := Done([InvalidFieldMsg(field)]);
    } else {
      r := Done([]);
    }
  }

  /** `Object.keys(o).forEach(...)` over the fields of an object, checking
      each against the rule table. */
  method CheckFields(o: Value) returns (r: Outcome<seq<string>>)
    requires o.Obj?
    ensures r == FieldsFrom(o, 0)
    decreases o, 2, 0
  {
    var errors: seq<string> := [];
    var i := 0;
    PrependNothing(FieldsFrom(o, 0));
    while i < |o.members|
      invariant i <= |o.members|
      invariant FieldsFrom(o, 0) == Prepend(errors, FieldsFrom(o, i))
    {
      var m := o.members[i];
      assert m in o.members;
      var fieldErr := CheckField(m.key, m.val);
      if fieldErr.Threw? {
        return Threw(fieldErr.error);
      }
      assert FieldsFrom(o, i) == Prepend(fieldErr.value, FieldsFrom(o, i + 1));
      PrependTwice(errors, fieldErr.value, FieldsFrom(o, i + 1));
      errors := errors + fieldErr.value;
      i := i + 1;
    }
    PrependDone(errors);
    r := Done(errors);
  }

  /** The `block` rule. */
  method CheckBlock(block: Value) returns (r: Outcome<seq<string>>)
    ensures r == BlockRule(block)
    decreases block, 4, 0
  {
    if ToType(block) == "object" {
      r := CheckFields(block);
    } else if ToType(block) != "string" {
      r := Done([BlockTypeMsg(ToType(block))]);
    } else {
      r := Done([]);
    }
  }

  /** The `elems` rule. */
  method CheckElems(elems: Value) returns (r: Outcome<seq<string>>)
    ensures r == ElemsRule(elems)
    decreases elems, 4, 0
  {
    var errors: seq<string> := [];
    if ToType(elems) == "string" {
      errors := StringCheck(elems, "elems");
    } else if ToType(elems) == "object" {
      var fieldErrs := CheckFields(elems);
      if fieldErrs.Threw? {
        return fieldErrs;
      }
      errors := fieldErrs.value;
    } else if ToType(elems) == "array" {
      errors := ArrayCheck(elems.items, "elems");
    } else {
      errors := [ElemsTypeMsg(ToType(elems))];
    }
    r := Done(errors);
  }

  /** The `mods` rule, with its loop over the entries of an object-form
      `mods`. */
  method CheckMods(mods: Value) returns (errors: seq<string>)
    ensures errors == ModsRule(mods)
  {
    errors := [];
    if IsLengthlessObject(mods) {
      var ms := mods.members;
      var i := 0;
      while i < |ms|
        invariant i <= |ms|
        invariant errors + ModsFrom(ms, i) == ModsFrom(ms, 0)
      {
        var entryErrs := ModsEntry(ms[i].key, ms[i].val);
        ModsStep(errors, ms, i);
        errors := errors + entryErrs;
        i := i + 1;
      }
      assert errors + [] == errors;
    } else if ToType(mods) == "array" {
      errors := ArrayCheck(mods.items, "mods");
    } else {
      errors := [ModsTypeMsg(ToType(mods))];
    }
  }

  /** One iteration of the loop of `mods`. */
  lemma ModsStep(errors: seq<string>, ms: seq<Member>, i: nat)
    requires i < |ms|
    ensures errors + ModsFrom(ms, i) == (errors + ModsEntry(ms[i].key, ms[i].val)) + ModsFrom(ms, i + 1)
  {
    assert ModsFrom(ms, i) == ModsEntry(ms[i].key, ms[i].val) + ModsFrom(ms, i + 1);
  }

  /** The `mustDeps` (`checkLength`) and `shouldDeps` rules, with their loop
      over the entries of an array section. */
  method CheckDeps(deps: Value, checkLength: bool) returns (r: Outcome<seq<string>>)
    ensures r == DepsRule(deps, checkLength)
    decreases deps, 4, 0
  {
    var errors: seq<string> := [];
    if ToType(deps) == "array" {
      var i := 0;
      PrependNothing(EntriesFrom(deps, 0));
      while i < |deps.items|
        invariant i <= |deps.items|
        invariant EntriesFrom(deps, 0) == Prepend(errors, EntriesFrom(deps, i))
      {
        var decl := deps.items[i];
        assert decl in deps.items;
        if ToType(decl) != "string" {
          var innerErrs := ValidateDeclFields(decl, ValidDeclFields);
          if innerErrs.Threw? {
            EntriesStops(deps, i);
            return innerErrs;
          }
          EntriesStep(deps, i, innerErrs.value);
          PrependTwice(errors, innerErrs.value, EntriesFrom(deps, i + 1));
          errors := errors + innerErrs.value;
        } else {
          EntriesStep(deps, i, []);
          PrependTwice(errors, [], EntriesFrom(deps, i + 1));
          assert errors + [] == errors;
        }
        i := i + 1;
      }
      PrependDone(errors);
    } else if ToType(deps) == "object" && (!checkLength || LengthUndefined(deps.members)) {
      var declErrs := ValidateDeclFields(deps, ValidDeclFields);
      if declErrs.Threw? {
        return declErrs;
      }
      errors := declErrs.value;
    } else if ToType(deps) != "string" {
      errors := [DepsTypeMsg(ToType(deps))];
    }
    r := Done(errors);
  }

  /** One entry of a dependency array whose check returns adds its
      messages. */
  lemma EntriesStep(a: Value, i: nat, here: seq<string>)
    requires a.Arr? && i < |a.items|
    requires (if ToType(a.items[i]) != "string" then DeclFields(a.items[i], ValidDeclFields) else Done([])) == Done(here)
    ensures EntriesFrom(a, i) == Prepend(here, EntriesFrom(a, i + 1))
  {
  }

  /** An entry whose check throws ends the loop with that exception. */
  lemma EntriesStops(a: Value, i: nat)
    requires a.Arr? && i < |a.items|
    requires ToType(a.items[i]) != "string" && DeclFields(a.items[i], ValidDeclFields).Threw?
    ensures EntriesFrom(a, i) == DeclFields(a.items[i], ValidDeclFields)
  {
  }

  /** `validateDeclFields(decl, validFields)`. */
  method ValidateDeclFields(decl: Value, validFields: seq<string>) returns (r: Outcome<seq<string>>)
    ensures r == DeclFields(decl, validFields)
    decreases decl, 3, 0
  {
    var errors: seq<string> := [];
    if ToType(decl) == "object" {
      var i := 0;
      PrependNothing(DeclFieldsFrom(decl, validFields, 0));
      while i < |decl.members|
        invariant i <= |decl.members|
        invariant DeclFieldsFrom(decl, validFields, 0) == Prepend(errors, DeclFieldsFrom(decl, validFields, i))
      {
        var m := decl.members[i];
        assert m in decl.members;
        var fieldErrs: seq<string> := [];
        if m.key !in validFields {
          fieldErrs := [InvalidFieldMsg(m.key)];
        } else if m.key in RuleNames {
          var fieldErr := CheckRule(m.key, m.val);
          if fieldErr.Threw? {
            return fieldErr;
          }
          fieldErrs := fieldErr.value;
        } else if m.key in ObjectPrototypeNames {
          return Threw(TypeError);
        } else if m.key !in ValidDeclFields {
          fieldErrs := [InvalidFieldMsg(m.key)];
        }
        assert DeclField(m.key, m.val, validFields) == Done(fieldErrs);
        assert DeclFieldsFrom(decl, validFields, i) == Prepend(fieldErrs, DeclFieldsFrom(decl, validFields, i + 1));
        PrependTwice(errors, fieldErrs, DeclFieldsFrom(decl, validFields, i + 1));
        errors := errors + fieldErrs;
        i := i + 1;
      }
      PrependDone(errors);
    } else {
      errors := [DeclTypeMsg(ToType(decl))];
    }
    r := Done(errors);
  }

  /** `validateDepsDeclaration(decl)`: `Object.keys(decl).forEach(...)`. */
  method ValidateDepsDeclaration(decl: Value) returns (r: Outcome<seq<string>>)
    ensures r == DeclarationMessages(decl)
  {
    match decl {
      case Obj(_) =>
        r := CheckFields(decl);
      case Null =>
        r := Threw(TypeError);
      case Undefined =>
        r := Threw(TypeError);
      case Arr(items) =>
        r := CheckIndexedFields(items);
      case Str(s) =>
        r := CheckIndexedFields(Chars(s));
      case _ =>
        r := Done([]);
    }
  }

  /** The same loop over the index keys `"0"`, `"1"`, ... of an array or a
      string, whose values are `vals`. */
  method CheckIndexedFields(vals: seq<Value>) returns (r: Outcome<seq<string>>)
    ensures r == IndexedFields(vals, 0)
  {
    var errors: seq<string> := [];
    var i := 0;
    PrependNothing(IndexedFields(vals, 0));
    while i < |vals|
      invariant i <= |vals|
      invariant IndexedFields(vals, 0) == Prepend(errors, IndexedFields(vals, i))
    {
      var fieldErr := CheckField(Decimal(i), vals[i]);
      // an index key has no rule, so its check returns
      IndexKeyIsUnknown(i);
      assert IndexedFields(vals, i) == Prepend(fieldErr.value, IndexedFields(vals, i + 1));
      PrependTwice(errors, fieldErr.value, IndexedFields(vals, i + 1));
      errors := errors + fieldErr.value;
      i := i + 1;
    }
    PrependDone(errors);
    r := Done(errors);
  }

  /** `validate(deps)`: every declaration of `[].concat(deps)` in order;
      `false` when none produced a message. */
  method Validate(deps: Value) returns (r: Outcome<Report>)
    ensures r == Verdict(deps)
  {
    var ds := Declarations(deps);
    var validationRes: seq<string> := [];
    var i := 0;
    PrependNothing(DeclarationsFrom(ds, 0));
    while i < |ds|
      invariant i <= |ds|
      invariant DeclarationsFrom(ds, 0) == Prepend(validationRes, DeclarationsFrom(ds, i))
    {
      var declRes := ValidateDepsDeclaration(ds[i]);
      if declRes.Threw? {
        return Threw(declRes.error);
      }
      assert DeclarationsFrom(ds, i) == Prepend(declRes.value, DeclarationsFrom(ds, i + 1));
      PrependTwice(validationRes, declRes.value, DeclarationsFrom(ds, i + 1));
      validationRes := validationRes + declRes.value;
      i := i + 1;
    }
    PrependDone(validationRes);
    if |validationRes| > 0 {
      r := Done(Errors(validationRes));
    } else {
      r := Done(NoErrors);
    }
  }
}
