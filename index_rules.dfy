/** The current validator (index.js) as functions: the two leaf checks, every
    entry of the rule table `validationRules`, the legal field list
    `validDeclFields` and the walkers `validateDeclFields`,
    `validateDepsDeclaration` and `validate`.

    A rule or walker that builds nested error arrays is modelled by the flat
    list of its messages in visit order (what `_.flattenDeep` makes of it);
    the empty list stands for the `undefined` it returns when nothing is
    wrong. A call that can throw returns an `Outcome`. */
module IndexRules {
  import opened JsValues
  import opened Messages

  /** The own keys of `validationRules`. */
  const RuleNames: set<string> :=
    {"block", "elem", "elems", "mod", "mods", "val", "tech", "mustDeps", "shouldDeps"}

  /** `validDeclFields`: the one field list used at every depth. */
  const ValidDeclFields: seq<string> :=
    ["block", "elem", "elems", "mod", "mods", "val", "tech", "mustDeps", "shouldDeps", "noDeps", "include"]

  /** What `validate` returns: `false`, or the flat list of messages. */
  datatype Report = NoErrors | Errors(messages: seq<string>)

  /** No object anywhere in the tree has a key inherited from
      `Object.prototype`: the condition under which no rule throws. */
  predicate PlainKeys(v: Value) {
    match v
    case Arr(items) => forall x <- items :: PlainKeys(x)
    case Obj(ms) => forall m <- ms :: m.key !in ObjectPrototypeNames && PlainKeys(m.val)
    case _ => true
  }

  // ---- leaf checks ----

  /** `simpleStringValidation`: nothing for a string, otherwise one message
      naming the actual kind, and the field when one is given. */
  function StringCheck(v: Value, field: string): (r: seq<string>)
    ensures |r| <= 1
    ensures r == [] <==> v.Str?
    ensures r != [] ==> r[0] == (if field != "" then NamedTypeMsg(field, ToType(v)) else TypeMsg(ToType(v)))
  {
    var kind := ToType(v);
    if kind != "string" then
      [if field != "" then NamedTypeMsg(field, kind) else TypeMsg(kind)]
    else []
  }

  /** `simpleArrayWithStringValidation`: at most one message for the whole
      array, however many items are not strings. */
  function ArrayCheck(items: seq<Value>, field: string): (r: seq<string>)
    ensures |r| <= 1
    ensures r == [] <==> forall i :: 0 <= i < |items| ==> items[i].Str?
    ensures r != [] ==> r[0] == (if field != "" then NamedItemMsg(field) else ItemMsg)
  {
    if exists i :: 0 <= i < |items| && ToType(items[i]) != "string" then
      [if field != "" then NamedItemMsg(field) else ItemMsg]
    else []
  }

  /** The `val` rule: booleans are accepted, anything else must be a string. */
  function ValRule(v: Value): (r: seq<string>)
    ensures |r| <= 1
    ensures r == [] <==> (v.Bool? || v.Str?)
  {
    if ToType(v) != "boolean" then StringCheck(v, "val") else []
  }

  /** One entry `key: value` of an object-form `mods`. */
  function ModsEntry(key: string, inner: Value): (r: seq<string>)
    ensures |r| <= 1
    ensures AllMessages(r)
  {
    if ToType(inner) == "array" then ArrayCheck(inner.items, "mods > " + key)
    else if ToType(inner) != "boolean" then StringCheck(inner, "mods > " + key)
    else []
  }

  /** The messages of the entries `ms[i..]` of an object-form `mods`. */
  function ModsFrom(ms: seq<Member>, i: nat): (r: seq<string>)
    requires i <= |ms|
    ensures |r| <= |ms| - i
    ensures AllMessages(r)
    decreases |ms| - i
  {
    if i == |ms| then [] else ModsEntry(ms[i].key, ms[i].val) + ModsFrom(ms, i + 1)
  }

  /** The `mods` rule: an object without a defined `length` is checked entry by
      entry, an array must hold strings, anything else is one message. */
  function ModsRule(v: Value): (r: seq<string>)
    ensures AllMessages(r)
  {
    if IsLengthlessObject(v) then ModsFrom(v.members, 0)
    else if ToType(v) == "array" then ArrayCheck(v.items, "mods")
    else [ModsTypeMsg(ToType(v))]
  }

  // ---- the rule table and the walkers (mutually recursive) ----

  /** `validationRules[k].valueValidation(v)` for an own key `k` of the table. */
  function Rule(k: string, v: Value): (r: Outcome<seq<string>>)
    requires k in RuleNames
    ensures r.Done? ==> AllMessages(r.value)
    ensures PlainKeys(v) ==> r.Done?
    decreases v, 5, 0
  {
    if k == "block" then BlockRule(v)
    else if k == "elem" then Done(StringCheck(v, "elem"))
    else if k == "elems" then ElemsRule(v)
    else if k == "mod" then Done(StringCheck(v, "mod"))
    else if k == "mods" then Done(ModsRule(v))
    else if k == "val" then Done(ValRule(v))
    else if k == "tech" then Done(StringCheck(v, "tech"))
    else if k == "mustDeps" then DepsRule(v, true)
    else DepsRule(v, false)
  }

  /** One field of a `block` object, an `elems` object or a top-level
      declaration: the rule table is consulted first (an inherited name is
      truthy there and has no `valueValidation`, so the call throws), then the
      field list. */
  function FieldByRule(k: string, v: Value): (r: Outcome<seq<string>>)
    ensures r.Done? ==> AllMessages(r.value)
    ensures k !in ObjectPrototypeNames && PlainKeys(v) ==> r.Done?
    decreases v, 6, 0
  {
    if k in RuleNames then Rule(k, v)
    else if k in ObjectPrototypeNames then Threw(TypeError)
    else if k !in ValidDeclFields then Done([InvalidFieldMsg(k)])
    else Done([])
  }

  /** The loop over `Object.keys(o)` from the `i`-th key on, as written for
      `block`, `elems` and `validateDepsDeclaration`. */
  function FieldsFrom(o: Value, i: nat): (r: Outcome<seq<string>>)
    requires o.Obj? && i <= |o.members|
    ensures r.Done? ==> AllMessages(r.value)
    ensures PlainKeys(o) ==> r.Done?
    decreases o, 1, |o.members| - i
  {
    if i == |o.members| then Done([])
    else
      var m := o.members[i];
      assert m in o.members;
      var here :- FieldByRule(m.key, m.val);
      var rest :- FieldsFrom(o, i + 1);
      Done(here + rest)
  }

  /** The `block` rule: a string passes, an object has its fields checked by
      the same rules, anything else is one message. */
  function BlockRule(v: Value): (r: Outcome<seq<string>>)
    ensures r.Done? ==> AllMessages(r.value)
    ensures PlainKeys(v) ==> r.Done?
    decreases v, 4, 0
  {
    if ToType(v) == "object" then FieldsFrom(v, 0)
    else if ToType(v) != "string" then Done([BlockTypeMsg(ToType(v))])
    else Done([])
  }

  /** The `elems` rule: a bare string passes, an object has its fields checked
      by the same rules, an array must hold strings, anything else is one
      message. */
  function ElemsRule(v: Value): (r: Outcome<seq<string>>)
    ensures r.Done? ==> AllMessages(r.value)
    ensures PlainKeys(v) ==> r.Done?
    decreases v, 4, 0
  {
    if ToType(v) == "string" then Done(StringCheck(v, "elems"))
    else if ToType(v) == "object" then FieldsFrom(v, 0)
    else if ToType(v) == "array" then Done(ArrayCheck(v.items, "elems"))
    else Done([ElemsTypeMsg(ToType(v))])
  }

  /** The `mustDeps` (`checkLength`) and `shouldDeps` rules: a string section
      passes, an array section has every non-string entry walked as a
      declaration, an object section is walked as one declaration (for
      `mustDeps` only when it has no defined `length`), anything else is one
      message. */
  function DepsRule(v: Value, checkLength: bool): (r: Outcome<seq<string>>)
    ensures r.Done? ==> AllMessages(r.value)
    ensures PlainKeys(v) ==> r.Done?
    decreases v, 4, 0
  {
    if ToType(v) == "array" then EntriesFrom(v, 0)
    else if ToType(v) == "object" && (!checkLength || LengthUndefined(v.members)) then
      DeclFields(v, ValidDeclFields)
    else if ToType(v) != "string" then Done([DepsTypeMsg(ToType(v))])
    else Done([])
  }

  /** The entries `a.items[i..]` of an array-form dependency section. */
  function EntriesFrom(a: Value, i: nat): (r: Outcome<seq<string>>)
    requires a.Arr? && i <= |a.items|
    ensures r.Done? ==> AllMessages(r.value)
    ensures PlainKeys(a) ==> r.Done?
    decreases a, 1, |a.items| - i
  {
    if i == |a.items| then Done([])
    else
      var entry := a.items[i];
      assert entry in a.items;
      var here :- if ToType(entry) != "string" then DeclFields(entry, ValidDeclFields) else Done([]);
      var rest :- EntriesFrom(a, i + 1);
      Done(here + rest)
  }

  /** `validateDeclFields(decl, validFields)`: a non-object is one message,
      an object has each field checked. */
  function DeclFields(d: Value, validFields: seq<string>): (r: Outcome<seq<string>>)
    ensures r.Done? ==> AllMessages(r.value)
    ensures PlainKeys(d) ==> r.Done?
    decreases d, 3, 0
  {
    if ToType(d) == "object" then DeclFieldsFrom(d, validFields, 0)
    else Done([DeclTypeMsg(ToType(d))])
  }

  /** The loop of `validateDeclFields` from the `i`-th key on. */
  function DeclFieldsFrom(d: Value, validFields: seq<string>, i: nat): (r: Outcome<seq<string>>)
    requires d.Obj? && i <= |d.members|
    ensures r.Done? ==> AllMessages(r.value)
    ensures PlainKeys(d) ==> r.Done?
    decreases d, 1, |d.members| - i
  {
    if i == |d.members| then Done([])
    else
      var m := d.members[i];
      assert m in d.members;
      var here :- DeclField(m.key, m.val, validFields);
      var rest :- DeclFieldsFrom(d, validFields, i + 1);
      Done(here + rest)
  }

  /** One field of `validateDeclFields`: the field list is consulted first,
      then the rule table, then (a second time) `validDeclFields`. */
  function DeclField(k: string, v: Value, validFields: seq<string>): (r: Outcome<seq<string>>)
    ensures r.Done? ==> AllMessages(r.value)
    ensures k !in ObjectPrototypeNames && PlainKeys(v) ==> r.Done?
    decreases v, 6, 0
  {
    if k !in validFields then Done([InvalidFieldMsg(k)])
    else if k in RuleNames then Rule(k, v)
    else if k in ObjectPrototypeNames then Threw(TypeError)
    else if k !in ValidDeclFields then Done([InvalidFieldMsg(k)])
    else Done([])
  }

  // ---- the entry points ----

  /** The one-character strings `s[k]` reads for each index key of `s`. */
  function Chars(s: string): (cs: seq<Value>)
    ensures |cs| == |s|
  {
    seq(|s|, i requires 0 <= i < |s| => Str([s[i]]))
  }

  /** An index key ("0", "1", ...) is never a rule, an inherited name or a
      legal field. */
  lemma IndexKeyIsUnknown(i: nat)
    ensures Decimal(i) !in RuleNames
    ensures Decimal(i) !in ObjectPrototypeNames
    ensures Decimal(i) !in ValidDeclFields
  {
    DecimalShape(i);
  }

  /** The loop of `validateDepsDeclaration` over the index keys of an array or
      string declaration, whose values are `vals`. */
  function IndexedFields(vals: seq<Value>, i: nat): (r: Outcome<seq<string>>)
    requires i <= |vals|
    ensures r.Done? && |r.value| == |vals| - i && AllMessages(r.value)
    decreases |vals| - i
  {
    if i == |vals| then Done([])
    else
      // an index key has no rule, so its check cannot throw
      IndexKeyIsUnknown(i);
      Done(FieldByRule(Decimal(i), vals[i]).value + IndexedFields(vals, i + 1).value)
  }

  /** `validateDepsDeclaration`: the fields of a top-level declaration are
      checked without first checking that it is an object, so
      `Object.keys` decides what happens to other kinds. */
  function DeclarationMessages(decl: Value): (r: Outcome<seq<string>>)
    ensures r.Done? ==> AllMessages(r.value)
    ensures r.Threw? ==> decl.Null? || decl.Undefined? || decl.Obj?
    ensures decl.Num? || decl.Bool? ==> r == Done([])
    ensures decl.Arr? ==> r.Done? && |r.value| == |decl.items|
  {
    match decl
    case Obj(_) => FieldsFrom(decl, 0)
    case Arr(items) => IndexedFields(items, 0)
    case Str(s) => IndexedFields(Chars(s), 0)
    case Null => Threw(TypeError)
    case Undefined => Threw(TypeError)
    case _ => Done([])
  }

  /** The messages of the declarations `ds[i..]`, in order. */
  function DeclarationsFrom(ds: seq<Value>, i: nat): (r: Outcome<seq<string>>)
    requires i <= |ds|
    ensures r.Done? ==> AllMessages(r.value)
    ensures r.Done? <==> forall j :: i <= j < |ds| ==> DeclarationMessages(ds[j]).Done?
    decreases |ds| - i
  {
    if i == |ds| then Done([])
    else
      var here :- DeclarationMessages(ds[i]);
      var rest :- DeclarationsFrom(ds, i + 1);
      Done(here + rest)
  }

  /** `validate`: `false` when no declaration produced a message, otherwise
      every message in visit order. */
  function Verdict(deps: Value): (r: Outcome<Report>)
    ensures r.Done? && r.value.Errors? ==> r.value.messages != []
  {
    var msgs :- DeclarationsFrom(Declarations(deps), 0);
    if msgs == [] then Done(NoErrors) else Done(Errors(msgs))
  }
}
