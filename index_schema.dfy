/** The declarations the current validator (index.js) accepts, stated
    declaratively as the shape each field's value must have. This is the
    reference the rule functions of `IndexRules` are proved against: a rule
    yields no message and does not throw exactly when its value has the
    shape given here. */
module IndexSchema {
  import opened JsValues
  import opened Messages
  import opened IndexRules
  import opened CommonShapes

  /** A field of a `block` object, an `elems` object or a top-level
      declaration is acceptable: its name is in the field list (a name inherited
      from `Object.prototype` makes the lookup throw) and, when the rule table
      has a rule for it, its value has that rule's shape. */
  predicate GoodField(k: string, v: Value)
    decreases v, 3
  {
    k !in ObjectPrototypeNames &&
    (k in RuleNames || k in ValidDeclFields) &&
    (k in RuleNames ==> GoodValue(k, v))
  }

  /** Every field of an object is acceptable. */
  predicate GoodFields(o: Value)
    requires o.Obj?
    decreases o, 1
  {
    forall j :: 0 <= j < |o.members| ==> GoodField(o.members[j].key, o.members[j].val)
  }

  /** The shape each rule accepts. */
  predicate GoodValue(k: string, v: Value)
    requires k in RuleNames
    decreases v, 2
  {
    if k == "block" then v.Str? || (v.Obj? && GoodFields(v))
    else if k == "elems" then v.Str? || (v.Arr? && AllStrings(v.items)) || (v.Obj? && GoodFields(v))
    else if k == "mods" then
      (v.Arr? && AllStrings(v.items)) ||
      (IsLengthlessObject(v) && forall j :: 0 <= j < |v.members| ==> GoodModValue(v.members[j].val))
    else if k == "val" then v.Bool? || v.Str?
    else if k == "mustDeps" then
      v.Str? || (v.Arr? && GoodEntries(v)) || (IsLengthlessObject(v) && GoodDecl(v))
    else if k == "shouldDeps" then
      v.Str? || (v.Arr? && GoodEntries(v)) || (v.Obj? && GoodDecl(v))
    else v.Str?
  }

  /** Every entry of a dependency array is a string or an acceptable
      declaration. */
  predicate GoodEntries(a: Value)
    requires a.Arr?
    decreases a, 1
  {
    forall j :: 0 <= j < |a.items| ==> a.items[j].Str? || GoodDecl(a.items[j])
  }

  /** A declaration inside a dependency section: an object whose every key is
      in `validDeclFields` and whose ruled fields have their rule's shape. */
  predicate GoodDecl(d: Value)
    decreases d, 1
  {
    d.Obj? &&
    forall j :: 0 <= j < |d.members| ==>
      d.members[j].key in ValidDeclFields &&
      (d.members[j].key in RuleNames ==> GoodValue(d.members[j].key, d.members[j].val))
  }

  /** A top-level declaration the validator accepts. `Object.keys` of a
      number or a boolean is empty, and the index keys of a non-empty string or
      array are never legal fields. */
  predicate GoodTopLevel(d: Value) {
    match d
    case Obj(_) => GoodFields(d)
    case Num(_) => true
    case Bool(_) => true
    case Str(s) => s == ""
    case Arr(items) => items == []
    case _ => false
  }
}
