/** The earlier validator (bkp.js) as the loops it is written with: each
    walker pushes onto a local `errors` array inside `forEach` loops, and
    each is proved to compute the function of `BkpRules` that specifies it.
    The input tree is only read. */
module BkpWalker {
  import opened JsValues
  import opened Messages
  import opened BkpRules

  /** `validationRules[k].valueValidation(v)`. */
  method CheckRule(k: string, v: Value) returns (r: Outcome<Returned>)
    requires k in RuleNames
    ensures r == Rule(k, v)
    decreases v, 5, 0
  {
    if k == "block" {
      r := CheckBlock(v);
    } else if k == "elem" || k == "mod" || k == "tech" {
      r := Done(StringCheck(v));
    } else if k == "elems" {
      r := CheckElems(v);
    } else if k == "mods" {
      var result := CheckMods(v);
      r := Done(result);
    } else {
      r := Done(ValRule(v));
    }
  }

  /** `(validationRules[k] || {}).valueValidation(v)`. */
  method CallRule(k: string, v: Value) returns (r: Outcome<Returned>)
    ensures r == LookupAndCall(k, v)
    decreases v, 6, 0
  {
    if k in RuleNames {
      r := CheckRule(k, v);
    } else {
      r := Threw(TypeError);
    }
  }

  /** The `block` rule with its two nested `forEach` loops over the same
      keys. */
  method CheckBlock(v: Value) returns (r: Outcome<Returned>)
    ensures r == BlockRule(v)
    decreases v, 4, 0
  {
    if IsLengthlessObject(v) {
      var keys := v.members;
      var i := 0;
      while i < |keys|
        invariant i <= |keys|
        invariant BlockOuter(v, 0) == BlockOuter(v, i)
      {
        var j := 0;
        while j < |keys|
          invariant j <= |keys|
          invariant BlockPass(v, 0) == BlockPass(v, j)
        {
          var m := keys[j];
          assert m in v.members;
          var fieldValidation := CallRule(m.key, m.val);
          if fieldValidation.Threw? {
            assert BlockOuter(v, i) == Threw(fieldValidation.error);
            return Threw(fieldValidation.error);
          }
          if Reportable(fieldValidation.value) {
            assert BlockOuter(v, i) == Threw(ReferenceError);
            return Threw(ReferenceError);
          }
          j := j + 1;
        }
        i := i + 1;
      }
      r := Done(NoValue);
    } else {
      var _ := StringCheck(v);
      r := Done(NoValue);
    }
  }

  /** The `elems` rule, with its loop over the keys of an object-form
      `elems`. */
  method CheckElems(v: Value) returns (r: Outcome<Returned>)
    ensures r == ElemsRule(v)
    decreases v, 4, 0
  {
    var errors: seq<Err> := [];
    if TypeOf(v) == "string" {
      var strValidation := StringCheck(v);
      errors := Pushed(strValidation);
    } else if IsLengthlessObject(v) {
      var i := 0;
      PrependNothing(ElemsFieldsFrom(v, 0));
      while i < |v.members|
        invariant i <= |v.members|
        invariant ElemsFieldsFrom(v, 0) == Prepend(errors, ElemsFieldsFrom(v, i))
      {
        var m := v.members[i];
        assert m in v.members;
        var fieldValidation := CallRule(m.key, m.val);
        if fieldValidation.Threw? {
          ElemsFieldsStops(v, i);
          return Threw(fieldValidation.error);
        }
        var pushed := Pushed(fieldValidation.value);
        ElemsFieldsStep(v, i, fieldValidation.value);
        PrependTwice(errors, pushed, ElemsFieldsFrom(v, i + 1));
        errors := errors + pushed;
        i := i + 1;
      }
      PrependDone(errors);
    } else if v.Arr? {
      var arrErr := ArrayCheck(v.items);
      errors := Pushed(arrErr);
    } else {
      errors := [Msg(ElemsTypeMsg(TypeOf(v)))];
    }
    r := Done(OrTrue(errors));
  }

  /** The `mods` rule, with its loop over the entries of an object-form
      `mods`. */
  method CheckMods(v: Value) returns (r: Returned)
    ensures r == ModsRule(v)
  {
    var errors: seq<Err> := [];
    if IsLengthlessObject(v) {
      var ms := v.members;
      var i := 0;
      while i < |ms|
        invariant i <= |ms|
        invariant errors + ModsFrom(ms, i) == ModsFrom(ms, 0)
      {
        var entryErrs := ModsEntry(ms[i].val);
        assert ModsFrom(ms, i) == entryErrs + ModsFrom(ms, i + 1);
        assert errors + ModsFrom(ms, i) == (errors + entryErrs) + ModsFrom(ms, i + 1);
        errors := errors + entryErrs;
        i := i + 1;
      }
      assert errors + [] == errors;
    } else if v.Arr? {
      var arrErr := ArrayCheck(v.items);
      errors := Pushed(arrErr);
    } else {
      errors := [Msg(ModsTypeMsg(TypeOf(v)))];
    }
    r := OrTrue(errors);
  }

  /** `validateDeclFields(decl, validFields)`. */
  method ValidateDeclFields(decl: Value, validFields: seq<string>) returns (r: Outcome<seq<Err>>)
    ensures r == DeclFields(decl, validFields)
  {
    if TypeOf(decl) != "object" {
      return Done([Msg(DeclTypeMsg(TypeOf(decl)))]);
    }
    if decl.Null? {
      return Threw(TypeError);
    }
    var ms := if decl.Obj? then decl.members else IndexMembers(decl.items);
    r := CheckDeclFields(ms, validFields);
  }

  /** The `forEach` of `validateDeclFields` over the keys `ms`. */
  method CheckDeclFields(ms: seq<Member>, validFields: seq<string>) returns (r: Outcome<seq<Err>>)
    ensures r == DeclFieldsFrom(ms, validFields, 0)
  {
    var errors: seq<Err> := [];
    var i := 0;
    PrependNothing(DeclFieldsFrom(ms, validFields, 0));
    while i < |ms|
      invariant i <= |ms|
      invariant DeclFieldsFrom(ms, validFields, 0) == Prepend(errors, DeclFieldsFrom(ms, validFields, i))
    {
      var field := ms[i].key;
      var fieldErrs: seq<Err> := [];
      if field !in validFields {
        fieldErrs := [Msg(InvalidFieldMsg(field))];
      } else if field in RuleNames {
        var fieldError := CheckRule(field, ms[i].val);
        if fieldError.Threw? {
          DeclFieldsStops(ms, validFields, i);
          return Threw(fieldError.error);
        }
        fieldErrs := Pushed(fieldError.value);
      }
      DeclFieldsStep(ms, validFields, i, fieldErrs);
      PrependTwice(errors, fieldErrs, DeclFieldsFrom(ms, validFields, i + 1));
      errors := errors + fieldErrs;
      i := i + 1;
    }
    PrependDone(errors);
    r := Done(errors);
  }

  /** `validateSection(section)`, with its loop over an array section. */
  method ValidateSection(section: Value) returns (r: Outcome<seq<Err>>)
    ensures r == Section(section)
  {
    var errors: seq<Err> := [];
    if section.Arr? {
      var entries := section.items;
      var i := 0;
      PrependNothing(SectionEntriesFrom(entries, 0));
      while i < |entries|
        invariant i <= |entries|
        invariant SectionEntriesFrom(entries, 0) == Prepend(errors, SectionEntriesFrom(entries, i))
      {
        var pushed: seq<Err> := [];
        if TypeOf(entries[i]) != "string" {
          var innerDeclsErrors := ValidateDeclFields(entries[i], ValidInnerDeclFields);
          if innerDeclsErrors.Threw? {
            return Threw(innerDeclsErrors.error);
          }
          if innerDeclsErrors.value != [] {
            pushed := [Group(innerDeclsErrors.value)];
          }
        }
        assert SectionEntry(entries[i]) == Done(pushed);
        SectionEntriesStep(entries, i, pushed);
        PrependTwice(errors, pushed, SectionEntriesFrom(entries, i + 1));
        errors := errors + pushed;
        i := i + 1;
      }
      PrependDone(errors);
    } else if section.Null? {
      return Threw(TypeError);
    } else if section.Obj? && LengthUndefined(section.members) {
      var declErrors := ValidateDeclFields(section, ValidInnerDeclFields);
      if declErrors.Threw? {
        return Threw(declErrors.error);
      }
      if declErrors.value != [] {
        errors := [Group(declErrors.value)];
      }
    } else if TypeOf(section) != "string" {
      errors := [Msg(DepsTypeMsg(TypeOf(section)))];
    }
    r := Done(errors);
  }

  /** `validateDepsDeclaration(decl)`. */
  method ValidateDepsDeclaration(decl: Value) returns (r: Outcome<Returned>)
    ensures r == DeclarationMessage(decl)
  {
    var errors: seq<string> := [];
    if Truthy(decl) {
      var declErr := ValidateDeclFields(decl, ValidDeclFields);
      if declErr.Threw? {
        return Threw(declErr.error);
      }
      errors := Joined(declErr.value);
    }
    if decl.Null? || decl.Undefined? {
      return Threw(TypeError);
    }
    var mustDeps := Property(decl, "mustDeps").value;
    if Truthy(mustDeps) {
      var mustErr := ValidateSection(mustDeps);
      if mustErr.Threw? {
        return Threw(mustErr.error);
      }
      errors := errors + Joined(mustErr.value);
    }
    var shouldDeps := Property(decl, "shouldDeps").value;
    if Truthy(shouldDeps) {
      var shouldErr := ValidateSection(shouldDeps);
      if shouldErr.Threw? {
        return Threw(shouldErr.error);
      }
      errors := errors + Joined(shouldErr.value);
    }
    if errors != [] {
      r := Done(Message(Join(errors, "\n")));
    } else {
      r := Done(NoValue);
    }
  }

  /** `validate(deps)`: every declaration of `[].concat(deps)` in order. */
  method Validate(deps: Value) returns (r: Outcome<Report>)
    ensures r == Verdict(deps)
  {
    var ds := Declarations(deps);
    var validationRes: seq<string> := [];
    var i := 0;
    PrependNothing(DeclarationsFrom(ds, 0));
    while i < |ds|
      invariant i <= |ds|
      invariant DeclarationsFrom(ds, 0) == Prepend(validationRes, DeclarationsFrom(ds, i))
    {
      var declValidationRes := ValidateDepsDeclaration(ds[i]);
      if declValidationRes.Threw? {
        return Threw(declValidationRes.error);
      }
      var pushed: seq<string> := [];
      if declValidationRes.value.Message? && declValidationRes.value.text != "" {
        pushed := [declValidationRes.value.text];
      }
      DeclarationsStep(ds, i, declValidationRes.value, pushed);
      PrependTwice(validationRes, pushed, DeclarationsFrom(ds, i + 1));
      validationRes := validationRes + pushed;
      i := i + 1;
    }
    PrependDone(validationRes);
    VerdictOfReports(deps, validationRes);
    if validationRes != [] {
      r := Done(Text(Join(validationRes, ",")));
    } else {
      r := Done(NoErrors);
    }
  }

  /** One step of the loop of `validate`. */
  lemma DeclarationsStep(ds: seq<Value>, i: nat, declValidationRes: Returned, pushed: seq<string>)
    requires i < |ds|
    requires DeclarationMessage(ds[i]) == Done(declValidationRes)
    requires pushed == Reported(declValidationRes)
    ensures DeclarationsFrom(ds, i) == Prepend(pushed, DeclarationsFrom(ds, i + 1))
  {
  }

  /** What `validate` returns once its loop has gathered `validationRes`. */
  lemma VerdictOfReports(deps: Value, validationRes: seq<string>)
    requires DeclarationsFrom(Declarations(deps), 0) == Done(validationRes)
    ensures Verdict(deps) == if validationRes != [] then Done(Text(Join(validationRes, ","))) else Done(NoErrors)
  {
  }

  /** One iteration of the loop of `validateSection`. */
  lemma SectionEntriesStep(entries: seq<Value>, i: nat, pushed: seq<Err>)
    requires i < |entries|
    requires SectionEntry(entries[i]) == Done(pushed)
    ensures SectionEntriesFrom(entries, i) == Prepend(pushed, SectionEntriesFrom(entries, i + 1))
  {
  }

  /** One key of an object-form `elems` whose rule returns adds what it pushes. */
  lemma ElemsFieldsStep(o: Value, i: nat, fieldValidation: Returned)
    requires o.Obj? && i < |o.members|
    requires LookupAndCall(o.members[i].key, o.members[i].val) == Done(fieldValidation)
    ensures ElemsFieldsFrom(o, i) == Prepend(Pushed(fieldValidation), ElemsFieldsFrom(o, i + 1))
  {
  }

  /** A key of an object-form `elems` whose rule throws ends the loop with
      that exception. */
  lemma ElemsFieldsStops(o: Value, i: nat)
    requires o.Obj? && i < |o.members|
    requires LookupAndCall(o.members[i].key, o.members[i].val).Threw?
    ensures ElemsFieldsFrom(o, i) == Threw(LookupAndCall(o.members[i].key, o.members[i].val).error)
  {
  }

  /** One key of `validateDeclFields` whose check returns adds its errors. */
  lemma DeclFieldsStep(ms: seq<Member>, validFields: seq<string>, i: nat, fieldErrs: seq<Err>)
    requires i < |ms|
    requires DeclField(ms[i].key, ms[i].val, validFields) == Done(fieldErrs)
    ensures DeclFieldsFrom(ms, validFields, i) == Prepend(fieldErrs, DeclFieldsFrom(ms, validFields, i + 1))
  {
  }

  /** A listed key whose rule throws ends the loop with that exception. */
  lemma DeclFieldsStops(ms: seq<Member>, validFields: seq<string>, i: nat)
    requires i < |ms| && ms[i].key in validFields && ms[i].key in RuleNames
    requires Rule(ms[i].key, ms[i].val).Threw?
    ensures DeclFieldsFrom(ms, validFields, i) == Threw(Rule(ms[i].key, ms[i].val).error)
  {
  }
}
