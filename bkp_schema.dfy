/** The declarations the earlier validator (bkp.js) lets through without a
    report and without throwing, stated declaratively. This is the reference
    the functions of `BkpRules` are proved against. */
module BkpSchema {
  import opened JsValues
  import opened CommonShapes
  import opened BkpRules

  /** A rule neither throws nor returns something reportable (`undefined` or
      `true`) exactly on these values. `block` and object-form `elems` call
      the rule of every inner key, and a key without a rule throws. */
  predicate Quiet(k: string, v: Value)
    requires k in RuleNames
    decreases v, 2
  {
    if k == "block" then !IsLengthlessObject(v) || QuietFields(v)
    else if k == "elems" then v.Str? || (IsLengthlessObject(v) && QuietFields(v)) || (v.Arr? && AllStrings(v.items))
    else if k == "mods" then
      (IsLengthlessObject(v) && forall j :: 0 <= j < |v.members| ==> GoodModValue(v.members[j].val)) ||
      (v.Arr? && AllStrings(v.items))
    else if k == "val" then v.Bool? || v.Str?
    else v.Str?
  }

  /** Every key of an inner object has a rule, and that rule is quiet. */
  predicate QuietFields(o: Value)
    requires o.Obj?
    decreases o, 1
  {
    forall j :: 0 <= j < |o.members| ==>
      o.members[j].key in RuleNames && Quiet(o.members[j].key, o.members[j].val)
  }

  /** No item of the field list looks like an index key. */
  predicate NamesOnly(validFields: seq<string>) {
    forall f <- validFields :: f != [] && !('0' <= f[0] <= '9')
  }

  /** `validateDeclFields(d, validFields)` returns `undefined`: `d` is an
      object whose every key is listed and whose ruled keys are quiet, or an
      empty array. */
  predicate QuietDecl(d: Value, validFields: seq<string>) {
    (d.Obj? &&
     forall j :: 0 <= j < |d.members| ==>
       d.members[j].key in validFields &&
       (d.members[j].key in RuleNames ==> Quiet(d.members[j].key, d.members[j].val))) ||
    (d.Arr? && d.items == [])
  }

  /** `validateSection(s)` returns `undefined`. */
  predicate QuietSection(s: Value) {
    s.Str? ||
    (s.Arr? && forall j :: 0 <= j < |s.items| ==> s.items[j].Str? || QuietDecl(s.items[j], ValidInnerDeclFields)) ||
    (IsLengthlessObject(s) && QuietDecl(s, ValidInnerDeclFields))
  }

  /** `validateDepsDeclaration(decl)` returns `undefined`. */
  predicate QuietDeclaration(decl: Value) {
    !decl.Null? && !decl.Undefined? &&
    (Truthy(decl) ==> QuietDecl(decl, ValidDeclFields)) &&
    (decl.Obj? ==>
      (Truthy(Get(decl.members, "mustDeps")) ==> QuietSection(Get(decl.members, "mustDeps"))) &&
      (Truthy(Get(decl.members, "shouldDeps")) ==> QuietSection(Get(decl.members, "shouldDeps"))))
  }
}
