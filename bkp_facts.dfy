/** What the earlier validator (bkp.js) promises, proved about the functions
    of `BkpRules`. */
module BkpFacts {
  import opened JsValues
  import opened Messages
  import opened CommonShapes
  import opened BkpRules
  import opened BkpSchema

  /** The call returned and its result is not pushed. */
  predicate QuietResult(r: Outcome<Returned>) {
    r.Done? && !Reportable(r.value)
  }

  // ---- the rules are quiet exactly on the shapes of `BkpSchema` ----

  lemma {:induction false} ModsFromQuiet(ms: seq<Member>, i: nat)
    requires i <= |ms|
    ensures ModsFrom(ms, i) == [] <==> forall j :: i <= j < |ms| ==> GoodModValue(ms[j].val)
    decreases |ms| - i
  {
    if i < |ms| {
      ModsEntryQuiet(ms[i].val);
      ModsFromQuiet(ms, i + 1);
    }
  }

  lemma ModsEntryQuiet(v: Value)
    ensures ModsEntry(v) == [] <==> GoodModValue(v)
  {
  }

  /** A rule of the table neither throws nor returns anything reportable
      exactly when `Quiet` holds. */
  lemma {:induction false} RuleQuietExactly(k: string, v: Value)
    requires k in RuleNames
    ensures QuietResult(Rule(k, v)) <==> Quiet(k, v)
    decreases v, 5, 0
  {
    if k == "block" {
      BlockQuietExactly(v);
    } else if k == "elems" {
      ElemsQuietExactly(v);
    } else if k == "mods" {
      if IsLengthlessObject(v) {
        ModsFromQuiet(v.members, 0);
      }
    }
  }

  lemma {:induction false} LookupQuietExactly(k: string, v: Value)
    ensures QuietResult(LookupAndCall(k, v)) <==> k in RuleNames && Quiet(k, v)
    decreases v, 6, 0
  {
    if k in RuleNames {
      RuleQuietExactly(k, v);
    }
  }

  lemma {:induction false} BlockQuietExactly(v: Value)
    ensures QuietResult(BlockRule(v)) <==> Quiet("block", v)
    decreases v, 4, 0
  {
    if IsLengthlessObject(v) {
      BlockOuterCollapses(v, 0);
      BlockPassQuiet(v, 0);
    }
  }

  /** The inner loop of `block` runs through exactly when every key has a
      quiet rule. */
  lemma {:induction false} BlockPassQuiet(o: Value, j: nat)
    requires o.Obj? && j <= |o.members|
    ensures BlockPass(o, j).Done? <==>
      forall l :: j <= l < |o.members| ==> o.members[l].key in RuleNames && Quiet(o.members[l].key, o.members[l].val)
    decreases o, 3, |o.members| - j
  {
    if j < |o.members| {
      var m := o.members[j];
      assert m in o.members;
      LookupQuietExactly(m.key, m.val);
      BlockPassQuiet(o, j + 1);
    }
  }

  lemma {:induction false} ElemsQuietExactly(v: Value)
    ensures QuietResult(ElemsRule(v)) <==> Quiet("elems", v)
    decreases v, 4, 0
  {
    if IsLengthlessObject(v) {
      ElemsFieldsQuiet(v, 0);
    }
  }

  lemma {:induction false} ElemsFieldsQuiet(o: Value, i: nat)
    requires o.Obj? && i <= |o.members|
    ensures ElemsFieldsFrom(o, i) == Done([]) <==>
      forall l :: i <= l < |o.members| ==> o.members[l].key in RuleNames && Quiet(o.members[l].key, o.members[l].val)
    decreases o, 1, |o.members| - i
  {
    if i < |o.members| {
      var m := o.members[i];
      assert m in o.members;
      LookupQuietExactly(m.key, m.val);
      ElemsFieldsQuiet(o, i + 1);
      var here := LookupAndCall(m.key, m.val);
      var rest := ElemsFieldsFrom(o, i + 1);
      if here.Done? && rest.Done? {
        assert ElemsFieldsFrom(o, i) == Done(Pushed(here.value) + rest.value);
        assert Pushed(here.value) + rest.value == [] <==> Pushed(here.value) == [] && rest.value == [];
      } else {
        assert ElemsFieldsFrom(o, i).Threw?;
      }
      assert (forall l :: i <= l < |o.members| ==> o.members[l].key in RuleNames && Quiet(o.members[l].key, o.members[l].val)) <==>
        (m.key in RuleNames && Quiet(m.key, m.val)) &&
        (forall l :: i + 1 <= l < |o.members| ==> o.members[l].key in RuleNames && Quiet(o.members[l].key, o.members[l].val));
    } else {
      assert ElemsFieldsFrom(o, i) == Done([]);
    }
  }

  /** The outer loop of `block` repeats the inner loop, whose outcome is the
      same each time: it amounts to one run of the inner loop when there is
      at least one key. */
  lemma {:induction false} BlockOuterCollapses(o: Value, i: nat)
    requires o.Obj? && i <= |o.members|
    ensures BlockOuter(o, i) == if i == |o.members| then Done(()) else BlockPass(o, 0)
    decreases |o.members| - i
  {
    if i < |o.members| {
      BlockOuterCollapses(o, i + 1);
      if BlockPass(o, 0).Done? {
        var u := BlockPass(o, 0).value;
        assert u == ();
        assert BlockPass(o, 0) == Done(u);
        assert BlockOuter(o, i) == BlockOuter(o, i + 1);
      }
    }
  }

  // ---- the walkers are quiet exactly on the shapes of `BkpSchema` ----

  /** One key of `validateDeclFields` adds nothing exactly when it is listed
      and, if it has a rule, the rule is quiet. */
  lemma DeclFieldQuiet(k: string, v: Value, validFields: seq<string>)
    ensures DeclField(k, v, validFields) == Done([]) <==>
      k in validFields && (k in RuleNames ==> Quiet(k, v))
  {
    if k in validFields && k in RuleNames {
      RuleQuietExactly(k, v);
    }
  }

  lemma {:induction false} DeclFieldsFromQuiet(ms: seq<Member>, validFields: seq<string>, i: nat)
    requires i <= |ms|
    ensures DeclFieldsFrom(ms, validFields, i) == Done([]) <==>
      forall l :: i <= l < |ms| ==>
        ms[l].key in validFields && (ms[l].key in RuleNames ==> Quiet(ms[l].key, ms[l].val))
    decreases |ms| - i
  {
    if i < |ms| {
      DeclFieldQuiet(ms[i].key, ms[i].val, validFields);
      DeclFieldsFromQuiet(ms, validFields, i + 1);
      var here := DeclField(ms[i].key, ms[i].val, validFields);
      var rest := DeclFieldsFrom(ms, validFields, i + 1);
      if here.Done? && rest.Done? {
        assert DeclFieldsFrom(ms, validFields, i) == Done(here.value + rest.value);
        assert here.value + rest.value == [] <==> here.value == [] && rest.value == [];
      }
    } else {
      assert DeclFieldsFrom(ms, validFields, i) == Done([]);
    }
  }

  /** An index key is never in a field list made of names. */
  lemma IndexKeyNotListed(i: nat, validFields: seq<string>)
    requires NamesOnly(validFields)
    ensures Decimal(i) !in validFields
  {
    if Decimal(i) in validFields {
      IndexKeyIsNotAName(i, Decimal(i));
    }
  }

  /** `validateDeclFields` returns `undefined` exactly on `QuietDecl`. */
  lemma DeclFieldsQuiet(d: Value, validFields: seq<string>)
    requires NamesOnly(validFields)
    ensures DeclFields(d, validFields) == Done([]) <==> QuietDecl(d, validFields)
  {
    match d
    case Obj(ms) =>
      DeclFieldsFromQuiet(ms, validFields, 0);
    case Arr(items) =>
      var ms := IndexMembers(items);
      DeclFieldsFromQuiet(ms, validFields, 0);
      if items != [] {
        IndexKeyNotListed(0, validFields);
        assert ms[0].key !in validFields;
      }
    case _ =>
  }

  lemma FieldListsAreNames()
    ensures NamesOnly(ValidDeclFields)
    ensures NamesOnly(ValidInnerDeclFields)
  {
  }

  lemma SectionEntryQuiet(decl: Value)
    ensures SectionEntry(decl) == Done([]) <==> decl.Str? || QuietDecl(decl, ValidInnerDeclFields)
  {
    FieldListsAreNames();
    DeclFieldsQuiet(decl, ValidInnerDeclFields);
  }

  lemma {:induction false} SectionEntriesQuiet(entries: seq<Value>, i: nat)
    requires i <= |entries|
    ensures SectionEntriesFrom(entries, i) == Done([]) <==>
      forall l :: i <= l < |entries| ==> entries[l].Str? || QuietDecl(entries[l], ValidInnerDeclFields)
    decreases |entries| - i
  {
    if i < |entries| {
      SectionEntryQuiet(entries[i]);
      SectionEntriesQuiet(entries, i + 1);
      var here := SectionEntry(entries[i]);
      var rest := SectionEntriesFrom(entries, i + 1);
      if here.Done? && rest.Done? {
        assert SectionEntriesFrom(entries, i) == Done(here.value + rest.value);
        assert here.value + rest.value == [] <==> here.value == [] && rest.value == [];
      } else {
        assert SectionEntriesFrom(entries, i).Threw?;
      }
      assert (forall l :: i <= l < |entries| ==> entries[l].Str? || QuietDecl(entries[l], ValidInnerDeclFields)) <==>
        (entries[i].Str? || QuietDecl(entries[i], ValidInnerDeclFields)) &&
        (forall l :: i + 1 <= l < |entries| ==> entries[l].Str? || QuietDecl(entries[l], ValidInnerDeclFields));
    } else {
      assert SectionEntriesFrom(entries, i) == Done([]);
    }
  }

  /** `validateSection` returns `undefined` exactly on `QuietSection`. */
  lemma SectionQuiet(s: Value)
    ensures Section(s) == Done([]) <==> QuietSection(s)
  {
    FieldListsAreNames();
    if s.Arr? {
      SectionEntriesQuiet(s.items, 0);
    } else if s.Obj? {
      DeclFieldsQuiet(s, ValidInnerDeclFields);
    }
  }

  lemma SectionPartsQuiet(decl: Value, key: string)
    requires key == "mustDeps" || key == "shouldDeps"
    requires !decl.Null? && !decl.Undefined?
    ensures SectionParts(decl, key) == Done([]) <==>
      (decl.Obj? ==> Truthy(Get(decl.members, key)) ==> QuietSection(Get(decl.members, key)))
  {
    if decl.Obj? {
      SectionQuiet(Get(decl.members, key));
    }
  }

  /** `validateDepsDeclaration` returns `undefined` exactly on
      `QuietDeclaration`. */
  lemma DeclarationQuiet(decl: Value)
    ensures DeclarationMessage(decl) == Done(NoValue) <==> QuietDeclaration(decl)
  {
    FieldListsAreNames();
    DeclFieldsQuiet(decl, ValidDeclFields);
    if !decl.Null? && !decl.Undefined? {
      SectionPartsQuiet(decl, "mustDeps");
      SectionPartsQuiet(decl, "shouldDeps");
    }
  }

  // ---- reports are non-empty texts ----

  lemma {:induction false} JoinIsMessage(parts: seq<string>, sep: string)
    requires parts != [] && AllMessages(parts)
    ensures IsMessage(Join(parts, sep))
  {
    assert parts[0] in parts;
    if |parts| > 1 {
      PrefixIsMessage(parts[0], sep + Join(parts[1..], sep));
      assert parts[0] + sep + Join(parts[1..], sep) == parts[0] + (sep + Join(parts[1..], sep));
    }
  }

  lemma JoinedAreMessages(errs: seq<Err>)
    requires AllWellFormed(errs)
    ensures AllMessages(Joined(errs))
  {
  }

  /** Every report of `validateDepsDeclaration` starts with "Invalid ", so
      the truthiness test of `validate` keeps all of them. */
  lemma DeclarationReportIsMessage(decl: Value)
    ensures DeclarationMessage(decl).Done? && DeclarationMessage(decl).value.Message? ==>
      IsMessage(DeclarationMessage(decl).value.text)
  {
    var parts := DeclarationParts(decl);
    if parts.Done? && parts.value != [] {
      var declErr := if Truthy(decl) then DeclFields(decl, ValidDeclFields) else Done([]);
      var mustErr := SectionParts(decl, "mustDeps");
      var shouldErr := SectionParts(decl, "shouldDeps");
      assert declErr.Done? && mustErr.Done? && shouldErr.Done?;
      JoinedAreMessages(declErr.value);
      SectionPartsAreMessages(decl, "mustDeps");
      SectionPartsAreMessages(decl, "shouldDeps");
      assert parts.value == Joined(declErr.value) + mustErr.value + shouldErr.value;
      JoinIsMessage(parts.value, "\n");
    }
  }

  lemma SectionPartsAreMessages(decl: Value, key: string)
    requires key == "mustDeps" || key == "shouldDeps"
    ensures SectionParts(decl, key).Done? ==> AllMessages(SectionParts(decl, key).value)
  {
    var section := Property(decl, key);
    if section.Done? && Truthy(section.value) {
      var sectionErr := Section(section.value);
      if sectionErr.Done? {
        JoinedAreMessages(sectionErr.value);
      }
    }
  }

  lemma {:induction false} DeclarationsFromQuiet(ds: seq<Value>, i: nat)
    requires i <= |ds|
    ensures DeclarationsFrom(ds, i) == Done([]) <==> forall j :: i <= j < |ds| ==> QuietDeclaration(ds[j])
    decreases |ds| - i
  {
    if i < |ds| {
      DeclarationNoReport(ds[i]);
      DeclarationsFromQuiet(ds, i + 1);
      DeclarationsStepQuiet(ds, i);
      assert (forall j :: i <= j < |ds| ==> QuietDeclaration(ds[j])) <==>
        QuietDeclaration(ds[i]) && forall j :: i + 1 <= j < |ds| ==> QuietDeclaration(ds[j]);
    } else {
      assert DeclarationsFrom(ds, i) == Done([]);
    }
  }

  /** A declaration adds no report to `validate` exactly when it is quiet:
      a report it returns is never the empty string. */
  lemma DeclarationNoReport(decl: Value)
    ensures DeclarationMessage(decl).Done? && Reported(DeclarationMessage(decl).value) == [] <==>
      QuietDeclaration(decl)
  {
    DeclarationQuiet(decl);
    DeclarationReportIsMessage(decl);
  }

  /** The loop from `i` on gathers nothing exactly when declaration `i`
      returns without a report and the loop from `i + 1` on gathers nothing. */
  lemma DeclarationsStepQuiet(ds: seq<Value>, i: nat)
    requires i < |ds|
    ensures DeclarationsFrom(ds, i) == Done([]) <==>
      DeclarationMessage(ds[i]).Done? && Reported(DeclarationMessage(ds[i]).value) == [] &&
      DeclarationsFrom(ds, i + 1) == Done([])
  {
    var here := DeclarationMessage(ds[i]);
    var rest := DeclarationsFrom(ds, i + 1);
    if here.Done? && rest.Done? {
      assert DeclarationsFrom(ds, i) == Done(Reported(here.value) + rest.value);
    }
  }

  /** `validate` returns `false` exactly when every declaration of
      `[].concat(deps)` is quiet. */
  lemma VerdictQuietExactly(deps: Value)
    ensures Verdict(deps) == Done(NoErrors) <==>
      forall j :: 0 <= j < |Declarations(deps)| ==> QuietDeclaration(Declarations(deps)[j])
  {
    DeclarationsFromQuiet(Declarations(deps), 0);
  }

  /** Every report the loop of `validate` keeps starts with "Invalid ". */
  lemma {:induction false} ReportsAreMessages(ds: seq<Value>, i: nat)
    requires i <= |ds|
    ensures DeclarationsFrom(ds, i).Done? ==> AllMessages(DeclarationsFrom(ds, i).value)
    decreases |ds| - i
  {
    if i < |ds| {
      DeclarationReportIsMessage(ds[i]);
      ReportsAreMessages(ds, i + 1);
    }
  }

  /** Otherwise `validate` returns the reports, in declaration order, joined
      by `toString`, and that text starts with "Invalid ".
      The branches of `Verdict`, written out; the acceptance itself is `VerdictQuietExactly`. */
  lemma VerdictIsTheReports(deps: Value)
    ensures Verdict(deps).Done? <==> DeclarationsFrom(Declarations(deps), 0).Done?
    ensures forall reports :: DeclarationsFrom(Declarations(deps), 0) == Done(reports) && reports != [] ==>
      Verdict(deps) == Done(Text(Join(reports, ",")))
    ensures Verdict(deps).Done? && Verdict(deps).value.Text? ==> IsMessage(Verdict(deps).value.text)
  {
    ReportsAreMessages(Declarations(deps), 0);
    var res := DeclarationsFrom(Declarations(deps), 0);
    if res.Done? && res.value != [] {
      JoinIsMessage(res.value, ",");
    }
  }

  // ---- the listed properties, rule by rule ----

  /** The string check reports what `typeof` says, so `null` and arrays are
      reported as "object"; the field is never named. */
  lemma StringCheckUsesTypeof(items: seq<Value>)
    ensures StringCheck(Null) == Message(TypeMsg("object"))
    ensures StringCheck(Arr(items)) == Message(TypeMsg("object"))
    ensures StringCheck(Undefined) == Message(TypeMsg("undefined"))
  {
  }

  /** `elems` and `mods` return `true` when nothing is wrong, and
      `validateDeclFields` adds nothing for it because `(true || []).length`
      is undefined. */
  lemma TrueCountsAsNoError(k: string, v: Value, validFields: seq<string>)
    requires k == "elems" || k == "mods"
    requires k in validFields
    ensures Rule(k, v).Done? ==> Rule(k, v).value != NoValue
    ensures DeclField(k, v, validFields) == Done([]) <==> Rule(k, v) == Done(TrueValue)
    ensures v.Str? ==> ElemsRule(v) == Done(TrueValue)
  {
  }

  /** `block` never reports: on anything but an object without a defined
      `length` it returns `undefined` (the string check's result is
      dropped), and under `validateDeclFields` it adds nothing or throws. */
  lemma BlockNeverReports(v: Value, validFields: seq<string>)
    ensures !IsLengthlessObject(v) ==> BlockRule(v) == Done(NoValue)
    ensures "block" in validFields ==>
      DeclField("block", v, validFields) == Done([]) || DeclField("block", v, validFields).Threw?
  {
  }

  /** What an object-form `block` throws when its `k`-th key is the first
      whose rule is missing, throws or returns something reportable. */
  function BlockFailure(key: string, v: Value): JsError {
    if key !in RuleNames then TypeError
    else if Rule(key, v).Threw? then Rule(key, v).error
    else ReferenceError
  }

  lemma {:induction false} BlockPassFirstBad(o: Value, j: nat, k: nat)
    requires o.Obj? && j <= k < |o.members|
    requires forall l :: j <= l < k ==> QuietResult(LookupAndCall(o.members[l].key, o.members[l].val))
    requires !QuietResult(LookupAndCall(o.members[k].key, o.members[k].val))
    ensures BlockPass(o, j) == Threw(BlockFailure(o.members[k].key, o.members[k].val))
    decreases k - j
  {
    if j < k {
      BlockPassSkips(o, j);
      BlockPassFirstBad(o, j + 1, k);
    } else {
      BlockPassStops(o, j);
    }
  }

  /** A key whose rule is quiet lets the inner loop of `block` go on. */
  lemma BlockPassSkips(o: Value, j: nat)
    requires o.Obj? && j < |o.members|
    requires QuietResult(LookupAndCall(o.members[j].key, o.members[j].val))
    ensures BlockPass(o, j) == BlockPass(o, j + 1)
  {
    var m := o.members[j];
    assert m in o.members;
  }

  /** A key whose rule is missing, throws or reports stops it. */
  lemma BlockPassStops(o: Value, j: nat)
    requires o.Obj? && j < |o.members|
    requires !QuietResult(LookupAndCall(o.members[j].key, o.members[j].val))
    ensures BlockPass(o, j) == Threw(BlockFailure(o.members[j].key, o.members[j].val))
  {
    var m := o.members[j];
    assert m in o.members;
    var fieldValidation := LookupAndCall(m.key, m.val);
    if fieldValidation.Threw? {
      assert m.key in RuleNames ==> fieldValidation == Rule(m.key, m.val);
    } else {
      assert m.key in RuleNames && Rule(m.key, m.val).Done?;
    }
  }

  /** An object-form `block` throws at the first key without a rule
      (TypeError) or with a reportable result (ReferenceError, since `errors`
      is undeclared), or with the exception of an inner rule. */
  lemma BlockThrowsAtFirstBadKey(o: Value, k: nat)
    requires IsLengthlessObject(o) && k < |o.members|
    requires forall l :: 0 <= l < k ==> QuietResult(LookupAndCall(o.members[l].key, o.members[l].val))
    requires !QuietResult(LookupAndCall(o.members[k].key, o.members[k].val))
    ensures BlockRule(o) == Threw(BlockFailure(o.members[k].key, o.members[k].val))
  {
    BlockPassFirstBad(o, 0, k);
    BlockOuterCollapses(o, 0);
  }

  /** A key outside the field list is exactly one 'Invalid field' message,
      whatever its value. Listed keys without a rule are skipped: in
      `validDeclFields` these are mustDeps, shouldDeps, noDeps and include.
      The branches of `DeclField`, written out; what it accepts is `DeclFieldQuiet`. */
  lemma DeclFieldCases(k: string, v: Value, validFields: seq<string>)
    ensures k !in validFields ==> DeclField(k, v, validFields) == Done([Msg(InvalidFieldMsg(k))])
    ensures k in validFields && k !in RuleNames ==> DeclField(k, v, validFields) == Done([])
    ensures k in ValidDeclFields && k !in RuleNames <==> k in {"mustDeps", "shouldDeps", "noDeps", "include"}
  {
  }

  /** A declaration whose `typeof` is not "object" is one 'expected object'
      message; `null` makes `Object.keys` throw.
      The non-object branches of `DeclFields`, written out; what it accepts is `DeclFieldsQuiet`. */
  lemma NonObjectDeclaration(d: Value, validFields: seq<string>)
    ensures TypeOf(d) != "object" ==> DeclFields(d, validFields) == Done([Msg(DeclTypeMsg(TypeOf(d)))])
    ensures d.Null? ==> DeclFields(d, validFields) == Threw(TypeError)
  {
  }

  /** An array declaration has its index keys reported as invalid fields, one
      message per item, whose values are never inspected. */
  lemma IndexKeysAreInvalid(items: seq<Value>, validFields: seq<string>, i: nat)
    requires NamesOnly(validFields) && i <= |items|
    ensures DeclFieldsFrom(IndexMembers(items), validFields, i).Done?
    ensures |DeclFieldsFrom(IndexMembers(items), validFields, i).value| == |items| - i
    ensures forall j :: 0 <= j < |items| - i ==>
      DeclFieldsFrom(IndexMembers(items), validFields, i).value[j] == Msg(InvalidFieldMsg(Decimal(i + j)))
  {
    IndexKeysInvalidFrom(IndexMembers(items), validFields, i);
  }

  /** The same, for any key list whose keys from `i` on are index keys. */
  lemma {:induction false} IndexKeysInvalidFrom(ms: seq<Member>, validFields: seq<string>, i: nat)
    requires NamesOnly(validFields) && i <= |ms|
    requires forall j :: i <= j < |ms| ==> ms[j].key == Decimal(j)
    ensures DeclFieldsFrom(ms, validFields, i).Done?
    ensures |DeclFieldsFrom(ms, validFields, i).value| == |ms| - i
    ensures forall j :: 0 <= j < |ms| - i ==>
      DeclFieldsFrom(ms, validFields, i).value[j] == Msg(InvalidFieldMsg(Decimal(i + j)))
    decreases |ms| - i
  {
    if i < |ms| {
      IndexKeyStep(ms, validFields, i);
      IndexKeysInvalidFrom(ms, validFields, i + 1);
      var tail := DeclFieldsFrom(ms, validFields, i + 1).value;
      IndexMessagesCons(i, tail);
      assert DeclFieldsFrom(ms, validFields, i) == Done([Msg(InvalidFieldMsg(Decimal(i)))] + tail);
    } else {
      assert DeclFieldsFrom(ms, validFields, i) == Done([]);
    }
  }

  /** The messages for index keys `i + 1`, ... preceded by the one for `i`
      are the messages for `i`, `i + 1`, ... */
  lemma IndexMessagesCons(i: nat, tail: seq<Err>)
    requires forall j :: 0 <= j < |tail| ==> tail[j] == Msg(InvalidFieldMsg(Decimal(i + 1 + j)))
    ensures forall j :: 0 <= j < |tail| + 1 ==>
      ([Msg(InvalidFieldMsg(Decimal(i)))] + tail)[j] == Msg(InvalidFieldMsg(Decimal(i + j)))
  {
    var all := [Msg(InvalidFieldMsg(Decimal(i)))] + tail;
    forall j | 0 < j < |tail| + 1
      ensures all[j] == Msg(InvalidFieldMsg(Decimal(i + j)))
    {
      assert all[j] == tail[j - 1];
    }
  }

  /** The `i`-th index key adds its one message. */
  lemma IndexKeyStep(ms: seq<Member>, validFields: seq<string>, i: nat)
    requires NamesOnly(validFields) && i < |ms| && ms[i].key == Decimal(i)
    ensures DeclFieldsFrom(ms, validFields, i) ==
      Prepend([Msg(InvalidFieldMsg(Decimal(i)))], DeclFieldsFrom(ms, validFields, i + 1))
  {
    IndexKeyNotListed(i, validFields);
    assert DeclField(ms[i].key, ms[i].val, validFields) == Done([Msg(InvalidFieldMsg(Decimal(i)))]);
  }

  /** The two field lists hold the same names, so every declaration gets the
      same result under either. */
  lemma FieldListsAgree(d: Value)
    ensures forall f :: f in ValidDeclFields <==> f in ValidInnerDeclFields
    ensures DeclFields(d, ValidDeclFields) == DeclFields(d, ValidInnerDeclFields)
  {
    match d
    case Obj(ms) => SameListsFrom(ms, 0);
    case Arr(items) => SameListsFrom(IndexMembers(items), 0);
    case _ =>
  }

  lemma {:induction false} SameListsFrom(ms: seq<Member>, i: nat)
    requires i <= |ms|
    ensures DeclFieldsFrom(ms, ValidDeclFields, i) == DeclFieldsFrom(ms, ValidInnerDeclFields, i)
    decreases |ms| - i
  {
    if i < |ms| {
      SameListsField(ms[i].key, ms[i].val);
      SameListsFrom(ms, i + 1);
    }
  }

  lemma SameListsField(k: string, v: Value)
    ensures DeclField(k, v, ValidDeclFields) == DeclField(k, v, ValidInnerDeclFields)
  {
    assert k in ValidDeclFields <==> k in ValidInnerDeclFields;
  }

  /** The value under a key without a rule (mustDeps, shouldDeps, noDeps,
      include) is never read by `validateDeclFields`: replacing it changes
      nothing. So dependency lists nested in section entries are never
      checked. */
  lemma UnruledValueNeverRead(ms: seq<Member>, j: nat, v: Value, validFields: seq<string>)
    requires j < |ms| && ms[j].key !in RuleNames
    ensures DeclFields(Obj(ms), validFields) == DeclFields(Obj(ms[j := Member(ms[j].key, v)]), validFields)
  {
    ReplacedFrom(ms, j, v, validFields, 0);
  }

  lemma {:induction false} ReplacedFrom(ms: seq<Member>, j: nat, v: Value, validFields: seq<string>, i: nat)
    requires j < |ms| && ms[j].key !in RuleNames && i <= |ms|
    ensures DeclFieldsFrom(ms, validFields, i) == DeclFieldsFrom(ms[j := Member(ms[j].key, v)], validFields, i)
    decreases |ms| - i
  {
    var ms' := ms[j := Member(ms[j].key, v)];
    if i < |ms| {
      if i == j {
        UnruledFieldIgnoresValue(ms[j].key, ms[j].val, v, validFields);
      } else {
        assert ms'[i] == ms[i];
      }
      ReplacedFrom(ms, j, v, validFields, i + 1);
      DeclFieldsFromAgree(ms, ms', validFields, i);
    }
  }

  /** The value of a key without a rule does not change its field's result. */
  lemma UnruledFieldIgnoresValue(k: string, v: Value, v': Value, validFields: seq<string>)
    requires k !in RuleNames
    ensures DeclField(k, v, validFields) == DeclField(k, v', validFields)
  {
  }

  /** Two key lists whose `i`-th fields give the same result, and whose loops
      from `i + 1` on do, give the same result from `i` on. */
  lemma DeclFieldsFromAgree(ms: seq<Member>, ms': seq<Member>, validFields: seq<string>, i: nat)
    requires i < |ms| == |ms'|
    requires DeclField(ms[i].key, ms[i].val, validFields) == DeclField(ms'[i].key, ms'[i].val, validFields)
    requires DeclFieldsFrom(ms, validFields, i + 1) == DeclFieldsFrom(ms', validFields, i + 1)
    ensures DeclFieldsFrom(ms, validFields, i) == DeclFieldsFrom(ms', validFields, i)
  {
  }

  lemma {:induction false} GetUnchanged(ms: seq<Member>, j: nat, v: Value, k: string)
    requires j < |ms| && ms[j].key != k
    ensures Get(ms[j := Member(ms[j].key, v)], k) == Get(ms, k)
    decreases |ms|
  {
    var ms' := ms[j := Member(ms[j].key, v)];
    if ms[0].key != k && j > 0 {
      assert ms'[1..] == ms[1..][j - 1 := Member(ms[j].key, v)];
      GetUnchanged(ms[1..], j - 1, v, k);
    }
  }

  /** At the top level, only `mustDeps` and `shouldDeps` are walked as
      sections: the value of any other key without a rule (noDeps,
      include) is never read. */
  lemma OnlyTopLevelSectionsAreChecked(ms: seq<Member>, j: nat, v: Value)
    requires j < |ms| && ms[j].key !in RuleNames
    requires ms[j].key != "mustDeps" && ms[j].key != "shouldDeps"
    ensures DeclarationMessage(Obj(ms)) == DeclarationMessage(Obj(ms[j := Member(ms[j].key, v)]))
  {
    var ms' := ms[j := Member(ms[j].key, v)];
    UnruledValueNeverRead(ms, j, v, ValidDeclFields);
    SectionPartsUnchanged(ms, j, v, "mustDeps");
    SectionPartsUnchanged(ms, j, v, "shouldDeps");
    assert DeclarationParts(Obj(ms)) == DeclarationParts(Obj(ms'));
  }

  /** Replacing the value of another key leaves a section's part unchanged. */
  lemma SectionPartsUnchanged(ms: seq<Member>, j: nat, v: Value, key: string)
    requires key == "mustDeps" || key == "shouldDeps"
    requires j < |ms| && ms[j].key != key
    ensures SectionParts(Obj(ms), key) == SectionParts(Obj(ms[j := Member(ms[j].key, v)]), key)
  {
    GetUnchanged(ms, j, v, key);
  }

  /** `validateSection`: a string section and string entries are accepted;
      `null` throws; any other non-object section, or an object with a
      defined `length`, is one 'expected string, array or object' message.
      The branches of `Section`, written out; what it accepts is `SectionQuiet`. */
  lemma SectionCases(s: Value)
    ensures s.Str? ==> Section(s) == Done([])
    ensures s.Null? ==> Section(s) == Threw(TypeError)
    ensures (s.Num? || s.Bool? || s.Undefined?) ==> Section(s) == Done([Msg(DepsTypeMsg(TypeOf(s)))])
    ensures s.Obj? && !LengthUndefined(s.members) ==> Section(s) == Done([Msg(DepsTypeMsg("object"))])
    ensures s.Arr? && AllStrings(s.items) ==> Section(s) == Done([])
  {
    if s.Arr? && AllStrings(s.items) {
      SectionEntriesQuiet(s.items, 0);
    }
  }

  // ---- worked examples ----

  /** The example bundled with bkp.js, an object-form `block` inside a
      `mustDeps` entry, yields `false`. */
  lemma BundledExample()
    ensures Verdict(Arr([Obj([
      Member("tech", Str("spec.js")),
      Member("mustDeps", Arr([Obj([
        Member("tech", Str("bemhtml")),
        Member("block", Obj([Member("block", Str("link")), Member("mods", Obj([Member("pseudo", Bool(true))]))]))])]))])]))
      == Done(NoErrors)
  {
    var mods := Obj([Member("pseudo", Bool(true))]);
    var block := Obj([Member("block", Str("link")), Member("mods", mods)]);
    var entry := Obj([Member("tech", Str("bemhtml")), Member("block", block)]);
    var section := Arr([entry]);
    var d := Obj([Member("tech", Str("spec.js")), Member("mustDeps", section)]);
    assert Quiet("mods", mods);
    assert Quiet("block", Str("link"));
    assert QuietFields(block);
    assert Quiet("block", block);
    assert QuietDecl(entry, ValidInnerDeclFields);
    assert QuietSection(section);
    assert Get(d.members, "mustDeps") == section;
    assert Get(d.members, "shouldDeps") == Undefined;
    assert QuietDecl(d, ValidDeclFields);
    assert QuietDeclaration(d);
    VerdictQuietExactly(Arr([d]));
  }

  /** An error array pushed whole is turned into text by `toString`, which
      separates its items with a comma, not a newline. */
  lemma NestedErrorsJoinedWithCommas()
    ensures DeclarationMessage(Obj([Member("elems", Obj([Member("elem", Num(true)), Member("mod", Bool(false))]))]))
      == Done(Message(TypeMsg("number") + "," + TypeMsg("boolean")))
  {
    var elems := Obj([Member("elem", Num(true)), Member("mod", Bool(false))]);
    var d := Obj([Member("elems", elems)]);
    var a := Msg(TypeMsg("number"));
    var b := Msg(TypeMsg("boolean"));
    assert TypeOf(Num(true)) == "number" && TypeOf(Bool(false)) == "boolean";
    assert LookupAndCall("elem", Num(true)) == Done(Message(TypeMsg("number")));
    assert LookupAndCall("mod", Bool(false)) == Done(Message(TypeMsg("boolean")));
    assert TypeMsg("number")[0] == 'I' && TypeMsg("boolean")[0] == 'I';
    assert Pushed(Message(TypeMsg("number"))) == [a];
    assert Pushed(Message(TypeMsg("boolean"))) == [b];
    assert ElemsFieldsFrom(elems, 2) == Done([]);
    var x := ElemsFieldsFrom(elems, 1);
    assert x.value == [b];
    assert x == Done(x.value);
    var y := ElemsFieldsFrom(elems, 0);
    assert y.value == [a] + [b];
    assert [a] + [b] == [a, b];
    assert y == Done(y.value);
    assert ElemsRule(elems) == Done(ErrorArray([a, b]));
    assert DeclField("elems", elems, ValidDeclFields) == Done([Group([a, b])]);
    assert DeclFieldsFrom(d.members, ValidDeclFields, 1) == Done([]);
    var z := DeclFieldsFrom(d.members, ValidDeclFields, 0);
    assert z.value == [Group([a, b])] + [];
    assert [Group([a, b])] + [] == [Group([a, b])];
    assert z == Done(z.value);
    assert DeclFields(d, ValidDeclFields) == Done([Group([a, b])]);
    assert SectionParts(d, "mustDeps") == Done([]);
    assert SectionParts(d, "shouldDeps") == Done([]);
    assert [a, b][1..] == [b];
    assert JoinErrs([a, b], ",") == TypeMsg("number") + "," + TypeMsg("boolean");
    assert JoinErrs([Group([a, b])], "\n") == JoinErrs([a, b], ",");
    assert Joined([Group([a, b])]) == [TypeMsg("number") + "," + TypeMsg("boolean")];
    var text := TypeMsg("number") + "," + TypeMsg("boolean");
    var parts := DeclarationParts(d);
    assert parts.value == [text] + [] + [];
    assert [text] + [] + [] == [text];
    assert parts == Done([text]);
  }

  /** A `null` entry in a section makes `Object.keys(null)` throw. */
  lemma NullEntryThrows()
    ensures Verdict(Obj([Member("mustDeps", Arr([Null]))])) == Threw(TypeError)
  {
    var d := Obj([Member("mustDeps", Arr([Null]))]);
    assert SectionEntriesFrom([Null], 0) == Threw(TypeError);
    assert DeclarationMessage(d) == Threw(TypeError);
    assert DeclarationsFrom([d], 0) == Threw(TypeError);
  }

  /** A reportable result inside an object-form `block` is pushed onto the
      undeclared `errors`. */
  lemma BlockInnerMessageThrows()
    ensures Verdict(Obj([Member("block", Obj([Member("elem", Num(true))]))])) == Threw(ReferenceError)
  {
    var inner := Obj([Member("elem", Num(true))]);
    var d := Obj([Member("block", inner)]);
    BlockThrowsAtFirstBadKey(inner, 0);
    assert DeclField("block", inner, ValidDeclFields) == Threw(ReferenceError);
    assert DeclFieldsFrom(d.members, ValidDeclFields, 0) == Threw(ReferenceError);
    assert DeclarationMessage(d) == Threw(ReferenceError);
    assert DeclarationsFrom([d], 0) == Threw(ReferenceError);
  }

  /** A `null` or `undefined` declaration throws when its `mustDeps` is read;
      another falsy one is skipped. */
  lemma FalsyDeclarations()
    ensures Verdict(Null) == Threw(TypeError)
    ensures Verdict(Undefined) == Threw(TypeError)
    ensures Verdict(Bool(false)) == Done(NoErrors)
    ensures Verdict(Str("")) == Done(NoErrors)
  {
    assert DeclarationsFrom([Null], 0) == Threw(TypeError);
    assert DeclarationsFrom([Undefined], 0) == Threw(TypeError);
    assert DeclarationsFrom([Bool(false)], 0) == Done([]);
    assert DeclarationsFrom([Str("")], 0) == Done([]);
  }

  /** The second-level example in the header comment of bkp.js: an `elems`
      array of element declarations is refused by the all-string array check,
      which pushes one array-item message. */
  lemma HeaderElemsRejected()
    ensures ElemsRule(Arr([
      Obj([Member("elem", Str("e1"))]),
      Obj([Member("elem", Str("e2")), Member("mods", Obj([Member("m1", Str("v1"))]))])
    ])) == Done(ErrorArray([Msg(ItemMsg)]))
  {
    var items := [
      Obj([Member("elem", Str("e1"))]),
      Obj([Member("elem", Str("e2")), Member("mods", Obj([Member("m1", Str("v1"))]))])
    ];
    assert !items[0].Str?;
  }
}
