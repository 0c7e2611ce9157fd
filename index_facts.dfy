/** What the current validator (index.js) promises, proved about the
    functions of `IndexRules`. */
module IndexFacts {
  import opened JsValues
  import opened Messages
  import opened IndexRules
  import opened IndexSchema
  import opened CommonShapes

  // ---- the rules accept exactly the shapes of `IndexSchema` ----

  /** An object-form `mods` has no message exactly when every entry is a
      boolean, a string or an array of strings. */
  lemma {:induction false} ModsFromAccepts(ms: seq<Member>, i: nat)
    requires i <= |ms|
    ensures ModsFrom(ms, i) == [] <==> forall j :: i <= j < |ms| ==> GoodModValue(ms[j].val)
    decreases |ms| - i
  {
    if i < |ms| {
      ModsEntryAccepts(ms[i].key, ms[i].val);
      ModsFromAccepts(ms, i + 1);
    }
  }

  lemma ModsEntryAccepts(key: string, v: Value)
    ensures ModsEntry(key, v) == [] <==> GoodModValue(v)
  {
  }

  /** A rule yields no message and does not throw exactly when its value has
      the shape `GoodValue` gives for that field. */
  lemma {:induction false} RuleAcceptsExactly(k: string, v: Value)
    requires k in RuleNames
    ensures Rule(k, v) == Done([]) <==> GoodValue(k, v)
    decreases v, 5, 0
  {
    if k == "block" {
      BlockAcceptsExactly(v);
    } else if k == "elems" {
      ElemsAcceptsExactly(v);
    } else if k == "mods" {
      if IsLengthlessObject(v) {
        ModsFromAccepts(v.members, 0);
      }
    } else if k == "mustDeps" {
      DepsAcceptsExactly(v, true);
    } else if k == "shouldDeps" {
      DepsAcceptsExactly(v, false);
    }
  }

  /** One field of a `block` object, an `elems` object or a top-level
      declaration is silent exactly when `GoodField` holds. */
  lemma {:induction false} FieldAcceptsExactly(k: string, v: Value)
    ensures FieldByRule(k, v) == Done([]) <==> GoodField(k, v)
    decreases v, 6, 0
  {
    if k in RuleNames {
      RuleAcceptsExactly(k, v);
    }
  }

  lemma {:induction false} FieldsFromAcceptsExactly(o: Value, i: nat)
    requires o.Obj? && i <= |o.members|
    ensures FieldsFrom(o, i) == Done([]) <==>
      forall j :: i <= j < |o.members| ==> GoodField(o.members[j].key, o.members[j].val)
    decreases o, 1, |o.members| - i
  {
    if i < |o.members| {
      var m := o.members[i];
      assert m in o.members;
      FieldAcceptsExactly(m.key, m.val);
      FieldsFromAcceptsExactly(o, i + 1);
      FieldsStepEmpty(o, i);
    }
  }

  /** The fields from `i` on are all accepted exactly when field `i` is and
      those after it are. */
  lemma FieldsStepEmpty(o: Value, i: nat)
    requires o.Obj? && i < |o.members|
    ensures FieldsFrom(o, i) == Done([]) <==>
      FieldByRule(o.members[i].key, o.members[i].val) == Done([]) && FieldsFrom(o, i + 1) == Done([])
  {
    var m := o.members[i];
    assert m in o.members;
    var here := FieldByRule(m.key, m.val);
    if here.Done? && FieldsFrom(o, i + 1).Done? {
      assert FieldsFrom(o, i) == Done(here.value + FieldsFrom(o, i + 1).value);
    }
  }

  lemma {:induction false} BlockAcceptsExactly(v: Value)
    ensures BlockRule(v) == Done([]) <==> GoodValue("block", v)
    decreases v, 4, 0
  {
    if v.Obj? {
      FieldsFromAcceptsExactly(v, 0);
    }
  }

  lemma {:induction false} ElemsAcceptsExactly(v: Value)
    ensures ElemsRule(v) == Done([]) <==> GoodValue("elems", v)
    decreases v, 4, 0
  {
    if v.Obj? {
      FieldsFromAcceptsExactly(v, 0);
    }
  }

  lemma {:induction false} DepsAcceptsExactly(v: Value, checkLength: bool)
    ensures DepsRule(v, checkLength) == Done([]) <==>
      GoodValue(if checkLength then "mustDeps" else "shouldDeps", v)
    decreases v, 4, 0
  {
    if v.Arr? {
      EntriesFromAcceptsExactly(v, 0);
    } else if v.Obj? {
      DeclFieldsAcceptsExactly(v);
    }
  }

  lemma {:induction false} EntriesFromAcceptsExactly(a: Value, i: nat)
    requires a.Arr? && i <= |a.items|
    ensures EntriesFrom(a, i) == Done([]) <==>
      forall j :: i <= j < |a.items| ==> a.items[j].Str? || GoodDecl(a.items[j])
    decreases a, 1, |a.items| - i
  {
    if i < |a.items| {
      var entry := a.items[i];
      assert entry in a.items;
      EntryAcceptsExactly(entry);
      EntriesFromAcceptsExactly(a, i + 1);
      var here := if ToType(entry) != "string" then DeclFields(entry, ValidDeclFields) else Done([]);
      var rest := EntriesFrom(a, i + 1);
      if here.Threw? {
        assert EntriesFrom(a, i).Threw?;
      } else if rest.Threw? {
        assert EntriesFrom(a, i).Threw?;
      } else {
        assert EntriesFrom(a, i) == Done(here.value + rest.value);
        assert here.value + rest.value == [] <==> here.value == [] && rest.value == [];
      }
      assert (forall j :: i <= j < |a.items| ==> a.items[j].Str? || GoodDecl(a.items[j])) <==>
        (entry.Str? || GoodDecl(entry)) &&
        (forall j :: i + 1 <= j < |a.items| ==> a.items[j].Str? || GoodDecl(a.items[j]));
    } else {
      assert EntriesFrom(a, i) == Done([]);
    }
  }

  /** One entry of an array section: a string, or a declaration walked with
      `validDeclFields`. */
  lemma {:induction false} EntryAcceptsExactly(entry: Value)
    ensures (if ToType(entry) != "string" then DeclFields(entry, ValidDeclFields) else Done([])) == Done([])
      <==> entry.Str? || GoodDecl(entry)
    decreases entry, 4, 0
  {
    if !entry.Str? {
      DeclFieldsAcceptsExactly(entry);
    }
  }

  /** `validateDeclFields` with `validDeclFields` is silent exactly on the
      declarations `GoodDecl` describes. */
  lemma {:induction false} DeclFieldsAcceptsExactly(d: Value)
    ensures DeclFields(d, ValidDeclFields) == Done([]) <==> GoodDecl(d)
    decreases d, 3, 0
  {
    if d.Obj? {
      DeclFieldsFromAcceptsExactly(d, 0);
    }
  }

  lemma {:induction false} DeclFieldsFromAcceptsExactly(d: Value, i: nat)
    requires d.Obj? && i <= |d.members|
    ensures DeclFieldsFrom(d, ValidDeclFields, i) == Done([]) <==>
      forall j :: i <= j < |d.members| ==>
        d.members[j].key in ValidDeclFields &&
        (d.members[j].key in RuleNames ==> GoodValue(d.members[j].key, d.members[j].val))
    decreases d, 1, |d.members| - i
  {
    if i < |d.members| {
      var m := d.members[i];
      assert m in d.members;
      DeclFieldAcceptsExactly(m.key, m.val);
      DeclFieldsFromAcceptsExactly(d, i + 1);
      var here := DeclField(m.key, m.val, ValidDeclFields);
      var rest := DeclFieldsFrom(d, ValidDeclFields, i + 1);
      if here.Threw? {
        assert DeclFieldsFrom(d, ValidDeclFields, i).Threw?;
      } else if rest.Threw? {
        assert DeclFieldsFrom(d, ValidDeclFields, i).Threw?;
      } else {
        assert DeclFieldsFrom(d, ValidDeclFields, i) == Done(here.value + rest.value);
        assert here.value + rest.value == [] <==> here.value == [] && rest.value == [];
      }
    } else {
      assert DeclFieldsFrom(d, ValidDeclFields, i) == Done([]);
    }
  }

  /** One field of a declaration in a dependency section. */
  lemma {:induction false} DeclFieldAcceptsExactly(k: string, v: Value)
    ensures DeclField(k, v, ValidDeclFields) == Done([]) <==>
      k in ValidDeclFields && (k in RuleNames ==> GoodValue(k, v))
    decreases v, 7, 0
  {
    if k in ValidDeclFields && k in RuleNames {
      RuleAcceptsExactly(k, v);
    }
  }

  // ---- the top level ----

  /** The fields of an array or string declaration are its index keys, each
      reported as an invalid field; their values are never inspected. */
  lemma {:induction false} IndexedFieldsAreInvalid(vals: seq<Value>, i: nat)
    requires i <= |vals|
    ensures IndexedFields(vals, i).Done?
    ensures |IndexedFields(vals, i).value| == |vals| - i
    ensures forall j :: 0 <= j < |vals| - i ==>
      IndexedFields(vals, i).value[j] == InvalidFieldMsg(Decimal(i + j))
    decreases |vals| - i
  {
    if i < |vals| {
      IndexKeyIsUnknown(i);
      IndexedFieldsAreInvalid(vals, i + 1);
      var here := [InvalidFieldMsg(Decimal(i))];
      assert FieldByRule(Decimal(i), vals[i]) == Done(here);
      var tail := IndexedFields(vals, i + 1).value;
      assert IndexedFields(vals, i) == Done(here + tail);
      forall j | 0 <= j < |vals| - i
        ensures (here + tail)[j] == InvalidFieldMsg(Decimal(i + j))
      {
        if j > 0 {
          assert (here + tail)[j] == tail[j - 1];
        }
      }
    } else {
      assert IndexedFields(vals, i) == Done([]);
    }
  }

  /** A top-level declaration yields no message and does not throw exactly
      when `GoodTopLevel` holds. */
  lemma DeclarationAcceptsExactly(d: Value)
    ensures DeclarationMessages(d) == Done([]) <==> GoodTopLevel(d)
  {
    match d
    case Obj(_) =>
      FieldsFromAcceptsExactly(d, 0);
    case Arr(items) =>
      IndexedFieldsAreInvalid(items, 0);
    case Str(s) =>
      IndexedFieldsAreInvalid(Chars(s), 0);
    case _ =>
  }

  lemma {:induction false} DeclarationsFromAcceptsExactly(ds: seq<Value>, i: nat)
    requires i <= |ds|
    ensures DeclarationsFrom(ds, i) == Done([]) <==> forall j :: i <= j < |ds| ==> GoodTopLevel(ds[j])
    decreases |ds| - i
  {
    if i < |ds| {
      DeclarationAcceptsExactly(ds[i]);
      DeclarationsFromAcceptsExactly(ds, i + 1);
      var here := DeclarationMessages(ds[i]);
      var rest := DeclarationsFrom(ds, i + 1);
      if here.Threw? {
        assert DeclarationsFrom(ds, i).Threw?;
      } else if rest.Threw? {
        assert DeclarationsFrom(ds, i).Threw?;
      } else {
        assert DeclarationsFrom(ds, i) == Done(here.value + rest.value);
        assert here.value + rest.value == [] <==> here.value == [] && rest.value == [];
      }
    } else {
      assert DeclarationsFrom(ds, i) == Done([]);
    }
  }

  /** `validate` returns `false` exactly when every declaration of
      `[].concat(deps)` is acceptable. */
  lemma VerdictAcceptsExactly(deps: Value)
    ensures Verdict(deps) == Done(NoErrors) <==>
      forall j :: 0 <= j < |Declarations(deps)| ==> GoodTopLevel(Declarations(deps)[j])
  {
    DeclarationsFromAcceptsExactly(Declarations(deps), 0);
  }

  /** `validate` returns `false` exactly when no rule produced a message, and
      otherwise returns every message in visit order.
      The branches of `Verdict`, written out; the acceptance itself is `VerdictAcceptsExactly`. */
  lemma VerdictIsTheMessages(deps: Value)
    ensures DeclarationsFrom(Declarations(deps), 0).Done? <==> Verdict(deps).Done?
    ensures Verdict(deps) == Done(NoErrors) <==> DeclarationsFrom(Declarations(deps), 0) == Done([])
    ensures forall msgs :: Verdict(deps) == Done(Errors(msgs)) <==>
      (msgs != [] && DeclarationsFrom(Declarations(deps), 0) == Done(msgs))
  {
  }

  /** Over object declarations whose keys are never inherited names,
      `validate` does not throw. */
  lemma {:induction false} DeclarationsFromTotal(ds: seq<Value>, i: nat)
    requires i <= |ds|
    requires forall j :: 0 <= j < |ds| ==> ds[j].Obj? && PlainKeys(ds[j])
    ensures DeclarationsFrom(ds, i).Done?
    decreases |ds| - i
  {
    if i < |ds| {
      DeclarationsFromTotal(ds, i + 1);
    }
  }

  lemma VerdictTotalOnPlainObjects(deps: Value)
    requires forall j :: 0 <= j < |Declarations(deps)| ==>
      Declarations(deps)[j].Obj? && PlainKeys(Declarations(deps)[j])
    ensures Verdict(deps).Done?
  {
    DeclarationsFromTotal(Declarations(deps), 0);
  }

  /** A key inherited from `Object.prototype` in a top-level declaration makes
      `validate` throw a TypeError. */
  lemma InheritedKeyThrows(k: string, v: Value)
    requires k in ObjectPrototypeNames
    ensures Verdict(Obj([Member(k, v)])) == Threw(TypeError)
  {
    var d := Obj([Member(k, v)]);
    assert k !in RuleNames;
    assert FieldByRule(k, v) == Threw(TypeError);
    assert FieldsFrom(d, 0) == Threw(TypeError);
    assert DeclarationsFrom([d], 0) == Threw(TypeError);
  }

  // ---- the listed properties, rule by rule ----

  /** `val` and object-form `mods` entries accept booleans and strings; any
      other leaf is one 'expected string' message tagged `val` or
      `mods > <key>`; an array entry of `mods` goes through the array
      check. */
  lemma ValAndModsLeaves(v: Value, key: string)
    ensures (v.Bool? || v.Str?) ==> ValRule(v) == [] && ModsEntry(key, v) == []
    ensures !v.Bool? && !v.Str? ==> ValRule(v) == [NamedTypeMsg("val", ToType(v))]
    ensures !v.Bool? && !v.Str? && !v.Arr? ==>
      ModsEntry(key, v) == [NamedTypeMsg("mods > " + key, ToType(v))]
    ensures v.Arr? ==> ModsEntry(key, v) == ArrayCheck(v.items, "mods > " + key)
  {
  }

  /** A `mods` value that is neither an array nor an object without a defined
      `length` is exactly one 'expected array or object' message; an
      object-form `mods` has at most one message per entry.
      The branches of `ModsRule`, written out; what it accepts is `ModsFromAccepts` and `RuleAcceptsExactly`. */
  lemma ModsShapes(v: Value)
    ensures !v.Arr? && !IsLengthlessObject(v) ==> ModsRule(v) == [ModsTypeMsg(ToType(v))]
    ensures IsLengthlessObject(v) ==> |ModsRule(v)| <= |v.members|
    ensures v.Arr? ==> ModsRule(v) == ArrayCheck(v.items, "mods")
  {
  }

  /** An object with a defined `length` is refused as `mods`. */
  lemma ModsObjectWithLength(ms: seq<Member>)
    requires !LengthUndefined(ms)
    ensures ModsRule(Obj(ms)) == [ModsTypeMsg("object")]
  {
  }

  /** A key outside `validDeclFields` is exactly one 'Invalid field' message,
      whatever its value. */
  lemma UnknownFieldIgnoresValue(k: string, v: Value, validFields: seq<string>)
    requires k !in ValidDeclFields && k !in ObjectPrototypeNames
    ensures FieldByRule(k, v) == Done([InvalidFieldMsg(k)])
    ensures k !in validFields ==> DeclField(k, v, validFields) == Done([InvalidFieldMsg(k)])
  {
  }

  /** The listed fields without a rule are `noDeps` and `include`, and they
      are accepted with any value. */
  lemma UnruledFieldsAccepted(k: string, v: Value)
    requires k in ValidDeclFields && k !in RuleNames
    ensures k == "noDeps" || k == "include"
    ensures FieldByRule(k, v) == Done([])
    ensures DeclField(k, v, ValidDeclFields) == Done([])
  {
  }

  /** The second membership test of `validateDeclFields` never fires: a field
      that passed the first test against a sub-list of `validDeclFields`
      either has a rule or is silently accepted. */
  lemma SecondListTestUnreachable(k: string, v: Value, validFields: seq<string>)
    requires forall f <- validFields :: f in ValidDeclFields
    ensures DeclField(k, v, validFields) ==
      if k !in validFields then Done([InvalidFieldMsg(k)])
      else if k in RuleNames then Rule(k, v)
      else Done([])
  {
  }

  /** A declaration of any kind but object inside a dependency section is one
      'expected object' message.
      The non-object branch of `DeclFields`, written out; what it accepts is `DeclFieldsAcceptsExactly`. */
  lemma NonObjectDeclaration(d: Value, validFields: seq<string>)
    requires !d.Obj?
    ensures DeclFields(d, validFields) == Done([DeclTypeMsg(ToType(d))])
  {
  }

  /** `mustDeps` and `shouldDeps`: a string section is accepted, an array or
      object section is walked, any other kind is one 'expected string, array
      or object' message. Only `mustDeps` refuses an object with a defined
      `length`.
      The branches of `DepsRule`, written out; what it accepts is `DepsAcceptsExactly`. */
  lemma DepsSections(v: Value, checkLength: bool)
    ensures v.Str? ==> DepsRule(v, checkLength) == Done([])
    ensures !v.Str? && !v.Arr? && !v.Obj? ==> DepsRule(v, checkLength) == Done([DepsTypeMsg(ToType(v))])
    ensures v.Obj? && LengthUndefined(v.members) ==> DepsRule(v, checkLength) == DeclFields(v, ValidDeclFields)
    ensures v.Obj? && !LengthUndefined(v.members) ==>
      DepsRule(v, true) == Done([DepsTypeMsg("object")]) &&
      DepsRule(v, false) == DeclFields(v, ValidDeclFields)
  {
  }

  /** In an array section, string entries are accepted, object entries are
      walked with `validDeclFields`, and any other entry is one 'expected
      object' message. */
  lemma DepsEntry(e: Value, checkLength: bool)
    ensures e.Str? ==> DepsRule(Arr([e]), checkLength) == Done([])
    ensures e.Obj? ==> DepsRule(Arr([e]), checkLength) == DeclFields(e, ValidDeclFields)
    ensures !e.Str? && !e.Obj? ==> DepsRule(Arr([e]), checkLength) == Done([DeclTypeMsg(ToType(e))])
  {
    var a := Arr([e]);
    assert EntriesFrom(a, 1) == Done([]);
    var here := if ToType(e) != "string" then DeclFields(e, ValidDeclFields) else Done([]);
    if here.Done? {
      assert here.value + [] == here.value;
    }
  }

  /** `block`: a string passes, an object is walked with the rule table, any
      other kind is one 'expected string or object' message.
      The branches of `BlockRule`, written out; what it accepts is `BlockAcceptsExactly`. */
  lemma BlockShapes(v: Value)
    ensures v.Str? ==> BlockRule(v) == Done([])
    ensures v.Obj? ==> BlockRule(v) == FieldsFrom(v, 0)
    ensures !v.Str? && !v.Obj? ==> BlockRule(v) == Done([BlockTypeMsg(ToType(v))])
  {
  }

  /** `elems`: a bare string passes, an object is walked with the rule
      table, an array has at most one message (none when all items are
      strings), any other kind is one message.
      The branches of `ElemsRule`, written out; what it accepts is `ElemsAcceptsExactly`. */
  lemma ElemsShapes(v: Value)
    ensures v.Str? ==> ElemsRule(v) == Done([])
    ensures v.Obj? ==> ElemsRule(v) == FieldsFrom(v, 0)
    ensures v.Arr? ==>
      ElemsRule(v).Done? && |ElemsRule(v).value| <= 1 && (ElemsRule(v).value == [] <==> AllStrings(v.items))
    ensures !v.Str? && !v.Obj? && !v.Arr? ==> ElemsRule(v) == Done([ElemsTypeMsg(ToType(v))])
  {
  }

  // ---- worked examples ----

  /** The example bundled with index.js: one message for the `null` in
      `mods.type`. */
  lemma BundledExample()
    ensures Verdict(Arr([Obj([
      Member("tech", Str("spec.js")),
      Member("mustDeps", Arr([Obj([
        Member("block", Str("jquery")),
        Member("elem", Str("event")),
        Member("mods", Obj([Member("type", Arr([Str("pointer"), Null]))]))])]))])]))
      == Done(Errors([NamedItemMsg("mods > type")]))
  {
    var d := Obj([
      Member("tech", Str("spec.js")),
      Member("mustDeps", Arr([Obj([
        Member("block", Str("jquery")),
        Member("elem", Str("event")),
        Member("mods", Obj([Member("type", Arr([Str("pointer"), Null]))]))])]))]);
    var msg := NamedItemMsg("mods > type");
    BundledDeclaration();
    assert [msg] + [] == [msg];
    assert DeclarationsFrom([d], 1) == Done([]);
    assert DeclarationsFrom([d], 0) == Done([msg]);
  }

  /** The one declaration of the bundled example. */
  lemma BundledDeclaration()
    ensures DeclarationMessages(Obj([
      Member("tech", Str("spec.js")),
      Member("mustDeps", Arr([Obj([
        Member("block", Str("jquery")),
        Member("elem", Str("event")),
        Member("mods", Obj([Member("type", Arr([Str("pointer"), Null]))]))])]))]))
      == Done([NamedItemMsg("mods > type")])
  {
    var mods := Obj([Member("type", Arr([Str("pointer"), Null]))]);
    var entry := Obj([Member("block", Str("jquery")), Member("elem", Str("event")), Member("mods", mods)]);
    var section := Arr([entry]);
    var d := Obj([Member("tech", Str("spec.js")), Member("mustDeps", section)]);
    var msg := NamedItemMsg("mods > type");
    BundledSection();
    assert FieldByRule("mustDeps", section) == Done([msg]);
    assert FieldByRule("tech", Str("spec.js")) == Done([]);
    assert [msg] + [] == [msg];
    assert FieldsFrom(d, 2) == Done([]);
    assert FieldsFrom(d, 1) == Done([msg]);
    var none: seq<string> := [];
    assert none + [msg] == [msg];
    assert FieldsFrom(d, 0) == Done([msg]);
  }

  /** The `mustDeps` section of the bundled example. */
  lemma BundledSection()
    ensures DepsRule(Arr([Obj([
      Member("block", Str("jquery")),
      Member("elem", Str("event")),
      Member("mods", Obj([Member("type", Arr([Str("pointer"), Null]))]))])]), true)
      == Done([NamedItemMsg("mods > type")])
  {
    var mods := Obj([Member("type", Arr([Str("pointer"), Null]))]);
    var entry := Obj([Member("block", Str("jquery")), Member("elem", Str("event")), Member("mods", mods)]);
    var section := Arr([entry]);
    var msg := NamedItemMsg("mods > type");
    BundledEntry();
    assert [msg] + [] == [msg];
    assert EntriesFrom(section, 1) == Done([]);
    assert EntriesFrom(section, 0) == Done([msg]);
  }

  /** The dependency entry of the bundled example. */
  lemma BundledEntry()
    ensures DeclFields(Obj([
      Member("block", Str("jquery")),
      Member("elem", Str("event")),
      Member("mods", Obj([Member("type", Arr([Str("pointer"), Null]))]))]), ValidDeclFields)
      == Done([NamedItemMsg("mods > type")])
  {
    var mods := Obj([Member("type", Arr([Str("pointer"), Null]))]);
    var entry := Obj([Member("block", Str("jquery")), Member("elem", Str("event")), Member("mods", mods)]);
    var msg := NamedItemMsg("mods > type");
    BundledEntryFields();
    var none: seq<string> := [];
    assert [msg] + [] == [msg];
    assert none + [msg] == [msg];
    assert DeclFieldsFrom(entry, ValidDeclFields, 3) == Done([]);
    assert DeclFieldsFrom(entry, ValidDeclFields, 2) == Done([msg]);
    assert DeclFieldsFrom(entry, ValidDeclFields, 1) == Done([msg]);
    assert DeclFieldsFrom(entry, ValidDeclFields, 0) == Done([msg]);
  }

  /** The fields of that entry, one by one. */
  lemma BundledEntryFields()
    ensures DeclField("mods", Obj([Member("type", Arr([Str("pointer"), Null]))]), ValidDeclFields)
      == Done([NamedItemMsg("mods > type")])
    ensures DeclField("elem", Str("event"), ValidDeclFields) == Done([])
    ensures DeclField("block", Str("jquery"), ValidDeclFields) == Done([])
  {
    BundledMods();
  }

  /** The `mods` of the bundled example: one message for the whole array. */
  lemma BundledMods()
    ensures ModsRule(Obj([Member("type", Arr([Str("pointer"), Null]))])) == [NamedItemMsg("mods > type")]
  {
    var items := [Str("pointer"), Null];
    var mods := Obj([Member("type", Arr(items))]);
    var msg := NamedItemMsg("mods > type");
    assert ToType(items[1]) != "string";
    assert ArrayCheck(items, "mods > type") == [msg];
    assert "mods > " + "type" == "mods > type";
    assert ModsEntry("type", Arr(items)) == [msg];
    assert ModsFrom(mods.members, 1) == [];
    assert [msg] + [] == [msg];
  }

  /** A wrong `tech` is reported; a bare-string `elems` is accepted. */
  lemma TechAndBareElems()
    ensures Verdict(Obj([Member("tech", Num(true)), Member("elems", Str("e1"))]))
      == Done(Errors([NamedTypeMsg("tech", "number")]))
  {
    TechAndBareElemsFields();
    var d := Obj([Member("tech", Num(true)), Member("elems", Str("e1"))]);
    var msg := NamedTypeMsg("tech", "number");
    assert DeclarationsFrom([d], 1) == Done([]);
    assert [msg] + [] == [msg];
    assert DeclarationsFrom([d], 0) == Done([msg]);
  }

  /** The fields of that example: `tech` yields its message, `elems` none. */
  lemma TechAndBareElemsFields()
    ensures FieldsFrom(Obj([Member("tech", Num(true)), Member("elems", Str("e1"))]), 0)
      == Done([NamedTypeMsg("tech", "number")])
  {
    var d := Obj([Member("tech", Num(true)), Member("elems", Str("e1"))]);
    var msg := NamedTypeMsg("tech", "number");
    assert FieldByRule("tech", Num(true)) == Done([msg]);
    assert FieldByRule("elems", Str("e1")) == Done([]);
    assert FieldsFrom(d, 2) == Done([]);
    assert d.members[1] == Member("elems", Str("e1"));
    var none: seq<string> := [];
    assert none + none == none;
    assert FieldsFrom(d, 1) == Done([]);
    assert d.members[0] == Member("tech", Num(true));
    assert [msg] + [] == [msg];
  }

  /** A well-shaped declaration with a nested dependency is accepted. */
  lemma NestedDependencyAccepted()
    ensures Verdict(Obj([
      Member("tech", Str("t")),
      Member("mustDeps", Arr([Obj([
        Member("block", Str("link")),
        Member("mods", Obj([Member("pseudo", Bool(true))]))])]))]))
      == Done(NoErrors)
  {
    var mods := Obj([Member("pseudo", Bool(true))]);
    var entry := Obj([Member("block", Str("link")), Member("mods", mods)]);
    var section := Arr([entry]);
    var d := Obj([Member("tech", Str("t")), Member("mustDeps", section)]);
    assert GoodValue("mods", mods);
    assert GoodDecl(entry);
    assert GoodValue("mustDeps", section);
    assert GoodFields(d);
    VerdictAcceptsExactly(d);
  }

  /** A wrong `block` inside a dependency entry is reported, without a path. */
  lemma NestedBlockReported()
    ensures Verdict(Obj([Member("mustDeps", Arr([Obj([Member("block", Num(true))])]))]))
      == Done(Errors([BlockTypeMsg("number")]))
  {
    NestedBlockDeclaration();
  }

  /** The declaration of that example yields the one message of its entry. */
  lemma NestedBlockDeclaration()
    ensures DeclarationsFrom([Obj([Member("mustDeps", Arr([Obj([Member("block", Num(true))])]))])], 0)
      == Done([BlockTypeMsg("number")])
  {
    var section := Arr([Obj([Member("block", Num(true))])]);
    var d := Obj([Member("mustDeps", section)]);
    var msg := BlockTypeMsg("number");
    assert [msg] + [] == [msg];
    NestedBlockSection();
    assert Rule("mustDeps", section) == Done([msg]);
    assert FieldByRule("mustDeps", section) == Done([msg]);
    assert FieldsFrom(d, 1) == Done([]);
    assert FieldsFrom(d, 0) == Done([msg]);
    assert DeclarationsFrom([d], 1) == Done([]);
    assert DeclarationsFrom([d], 0) == Done([msg]);
  }

  /** The section of that example yields the one message of its entry. */
  lemma NestedBlockSection()
    ensures DepsRule(Arr([Obj([Member("block", Num(true))])]), true) == Done([BlockTypeMsg("number")])
  {
    var inner := Obj([Member("block", Num(true))]);
    var section := Arr([inner]);
    var msg := BlockTypeMsg("number");
    assert [msg] + [] == [msg];
    assert DeclField("block", Num(true), ValidDeclFields) == Done([msg]);
    assert DeclFieldsFrom(inner, ValidDeclFields, 1) == Done([]);
    assert DeclFieldsFrom(inner, ValidDeclFields, 0) == Done([msg]);
    assert EntriesFrom(section, 1) == Done([]);
    assert EntriesFrom(section, 0) == Done([msg]);
  }

  /** The second-level example in the header comment of index.js: an `elems`
      array of element declarations. The rule accepts only an array of
      strings, so the example is one array-item message. */
  lemma HeaderElemsRejected()
    ensures ElemsRule(Arr([
      Obj([Member("elem", Str("e1"))]),
      Obj([Member("elem", Str("e2")), Member("mods", Obj([Member("m1", Str("v1"))]))])
    ])) == Done([NamedItemMsg("elems")])
  {
    var items := [
      Obj([Member("elem", Str("e1"))]),
      Obj([Member("elem", Str("e2")), Member("mods", Obj([Member("m1", Str("v1"))]))])
    ];
    assert ToType(items[0]) != "string";
  }
}
