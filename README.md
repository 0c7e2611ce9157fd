# deps.js shape validator, modelled in Dafny

A BEM `deps.js` file evaluates to a loosely typed tree: one declaration, or
an array of them. A declaration is an object with fields such as `block`,
`elem`, `elems`, `mod`, `mods`, `val`, `tech`, `mustDeps`, `shouldDeps`,
`noDeps` and `include`. The validator walks this tree. Each field it has a
rule for is checked against the shape that rule expects. The validator
collects the messages (`Invalid type at field "elem": number (expected
string)`, `Invalid field (foo) in declaration`, …) and returns them, or
returns `false` when there are none.

The repository holds two variants of the validator, and both are modelled:

- `index.js` is the current validator.
  - It uses the `toType` helper (`Object.prototype.toString`).
  - Messages name the field they come from.
  - `block`, `elems`, `mustDeps` and `shouldDeps` re-enter the rule table at any depth.
  - The nested error arrays are flattened into one list.
- `bkp.js` is an earlier variant.
  - It uses `typeof`.
  - `elems` and `mods` return `true` on success.
  - `mustDeps` and `shouldDeps` are checked only on top-level declarations, by `validateSection`.
  - The result is a single string: each declaration's parts are joined with newlines, error arrays are rendered by `toString` with commas, and the declarations are joined with commas.
  - Its `block` rule throws when it meets an inner field that has no rule, or one that is wrong. It reads the undeclared `errors` and runs a redundant outer loop; both are modelled.

Files and modules:

| file | module | what it holds |
|---|---|---|
| `js_values.dfy` | `JsValues` | The JavaScript values a tree is built from. `toType`, `typeof`, truthiness, property reads and `[].concat`. `Outcome`, meaning a call either returns or throws `TypeError` or `ReferenceError`. |
| `messages.dfy` | `Messages` | The message texts, written exactly as the source builds them. |
| `common_shapes.dfy` | `CommonShapes` | Shapes both variants accept in the same way: all-string arrays and `mods` values. |
| `index_rules.dfy` | `IndexRules` | `index.js` as functions: every rule, the walkers and `validate`. |
| `index_walker.dfy` | `IndexWalker` | `index.js` as the loops it is written with. Each method is proved to compute its `IndexRules` function. |
| `index_schema.dfy` | `IndexSchema` | The declarations `index.js` accepts, stated as shapes. |
| `index_facts.dfy` | `IndexFacts` | The properties of `index.js`. |
| `bkp_rules.dfy` | `BkpRules` | `bkp.js` as functions. Errors are kept as nested arrays, because joining them depends on the nesting. |
| `bkp_walker.dfy` | `BkpWalker` | `bkp.js` as loops, each proved to compute its `BkpRules` function. |
| `bkp_schema.dfy` | `BkpSchema` | The declarations `bkp.js` lets through without a message and without throwing. |
| `bkp_facts.dfy` | `BkpFacts` | The properties of `bkp.js`. |

Where the code and the documented `deps.js` format (the bem.info specification that `index.js` names in its header comment) disagree, the model follows the code:

- Messages carry no dotted or indexed path (`mustDeps[0].block`). A wrong array item gives one message per array, not one per index.
- `include` and `noDeps` are accepted with any value. The value is never `=== false`-checked.
- One field list, `validDeclFields`, is used at every depth. There is no element-level list without `block` and `elems`. In `bkp.js`, `validInnerDeclFields` has the same names in another order.
- `elem` accepts only a string, never an array.
- `elems` accepts only a string, an array of strings, or an object whose fields are checked by the rule table. An array of element declarations, as in the second-level example of both files' own header comments (`elems : [ { elem : 'e1' }, ... ]`), is refused by the all-string array check and gives one array-item message (`IndexFacts.HeaderElemsRejected`, `BkpFacts.HeaderElemsRejected`).
- Errors are returned as nested arrays and concatenated, not pushed to a shared sink.
- A top-level declaration that is not an object is handled differently by the two variants.
  - In `index.js` it is never reported as a wrong type: `Object.keys` is applied to it directly. `null` and `undefined` throw. A number or a boolean has no keys and yields nothing. Each character of a string, and each item of an array, is an invalid field named by its index.
  - In `bkp.js`, `null` and `undefined` throw at `decl['mustDeps']`. Other falsy values (`0`, `""`, `false`) are skipped without a message. A truthy string, number or `true` yields exactly one `Invalid declaration type (<typeof>), expected object`. A non-empty array yields one `Invalid field (i) in declaration` per item.
- A field whose name is inherited from `Object.prototype` (`constructor`, `toString`, …) is treated according to which test comes first.
  - Where the rule table is consulted before the field list, `validationRules[field]` is truthy without a `valueValidation`, and the call throws `TypeError`. In `index.js` this is the top level and the fields of an object-form `block` or `elems`. In `bkp.js` it is the fields of an object-form `block` or `elems`, whose lookups go through `(validationRules[k] || {})` and throw for any key without a rule.
  - Where the field list is tested first (`validateDeclFields`: every entry of `mustDeps`/`shouldDeps` in both variants, and the top level of `bkp.js`), the name is not listed and is reported as `Invalid field (constructor) in declaration`.

## Model

| member | source | states |
|---|---|---|
| JsValues.ToType | index.js:38-40 | The tag is "string", "boolean", "array" or "object" exactly for strings, booleans, arrays and plain objects (null is "null"). |
| JsValues.TypeOf | bkp.js:39 | `typeof` is "object" exactly for null, arrays and objects; "string" and "boolean" exactly for strings and booleans. |
| JsValues.IndexKeyIsNotAName | index.js:267-279 | An index key that `Object.keys` reports for an array or string never equals a field name. |
| IndexRules.StringCheck | index.js:48-56 | No message exactly for a string; otherwise exactly one, naming the `toType` kind and the field when one is given. |
| IndexRules.ArrayCheck | index.js:64-74 | At most one message per array, none exactly when every item is a string; it names the field when one is given. |
| IndexRules.ValRule | index.js:195-201 | At most one message; none exactly for a boolean or a string. |
| IndexRules.ModsEntry | index.js:164-177 | One entry of an object-form `mods` yields at most one message. |
| IndexRules.ModsFrom | index.js:164-178 | The entries of an object-form `mods` yield at most one message each. |
| IndexRules.ModsRule | index.js:158-193 | Every message of `mods` is an "Invalid ..." text. |
| IndexRules.Rule | index.js:80-265 | A rule never throws on a value whose keys are not inherited names, and its messages are "Invalid ..." texts. |
| IndexRules.FieldByRule | index.js:89-96 | One field of a `block` or `elems` object or a top-level declaration throws only for an inherited name. |
| IndexRules.FieldsFrom | index.js:89-97 | The loop over an object's fields throws only for inherited names. |
| IndexRules.BlockRule | index.js:82-108 | The `block` rule throws only for inherited names inside it. |
| IndexRules.ElemsRule | index.js:116-150 | The `elems` rule throws only for inherited names inside it. |
| IndexRules.DepsRule | index.js:209-263 | The `mustDeps`/`shouldDeps` rules throw only for inherited names inside them. |
| IndexRules.EntriesFrom | index.js:213-220 | The loop over a dependency array throws only for inherited names inside it. |
| IndexRules.DeclFields | index.js:325-351 | `validateDeclFields` throws only for inherited names inside it. |
| IndexRules.DeclFieldsFrom | index.js:329-341 | The loop of `validateDeclFields` throws only for inherited names inside it. |
| IndexRules.DeclField | index.js:330-340 | One field of `validateDeclFields` throws only for an inherited name. |
| IndexRules.IndexedFields | index.js:310-318 | Over the index keys of an array or string the loop never throws, yields exactly one message per key, and every message is an "Invalid ..." text; the exact texts, in order, are `IndexFacts.IndexedFieldsAreInvalid`. |
| IndexRules.DeclarationMessages | index.js:307-323 | `validateDepsDeclaration` throws only for `null`, `undefined` or an object (an inherited key); a number or boolean yields nothing; an array yields one message per item. What it accepts is `IndexFacts.DeclarationAcceptsExactly`. |
| IndexRules.DeclarationsFrom | index.js:288-294 | The loop of `validate` returns exactly when every declaration's check returns, and gathers only "Invalid ..." texts. What it accepts is `IndexFacts.DeclarationsFromAcceptsExactly`. |
| IndexRules.Verdict | index.js:285-305 | A reported list of errors is never empty. |
| IndexWalker.CheckRule | index.js:80-265 | The rule table dispatch computes `IndexRules.Rule`. |
| IndexWalker.CheckField | index.js:90-96 | One loop iteration computes `IndexRules.FieldByRule`. |
| IndexWalker.CheckFields | index.js:89-97 | The `forEach` over an object's keys computes `IndexRules.FieldsFrom`. |
| IndexWalker.CheckBlock | index.js:82-108 | The `block` rule computes `IndexRules.BlockRule`. |
| IndexWalker.CheckElems | index.js:116-150 | The `elems` rule computes `IndexRules.ElemsRule`. |
| IndexWalker.CheckMods | index.js:158-193 | The `mods` rule with its loop computes `IndexRules.ModsRule`. |
| IndexWalker.CheckDeps | index.js:209-263 | The `mustDeps`/`shouldDeps` rules with their loop compute `IndexRules.DepsRule`. |
| IndexWalker.ValidateDeclFields | index.js:325-351 | `validateDeclFields` computes `IndexRules.DeclFields`. |
| IndexWalker.ValidateDepsDeclaration | index.js:307-323 | `validateDepsDeclaration` computes `IndexRules.DeclarationMessages` for every kind of value. |
| IndexWalker.CheckIndexedFields | index.js:310-318 | The loop over the index keys of an array or string computes `IndexRules.IndexedFields`. |
| IndexWalker.Validate | index.js:285-305 | `validate` computes `IndexRules.Verdict`. |
| IndexFacts.ModsFromAccepts | index.js:164-178 | The entries of an object-form `mods` yield nothing exactly when each is a boolean, a string or an all-string array. |
| IndexFacts.ModsEntryAccepts | index.js:165-177 | One `mods` entry yields nothing exactly when it is a boolean, a string or an all-string array. |
| IndexFacts.RuleAcceptsExactly | index.js:80-265 | Each rule returns no message and does not throw exactly on the shape `IndexSchema.GoodValue` gives it. |
| IndexFacts.FieldAcceptsExactly | index.js:89-96 | A field is accepted exactly when it is listed, not inherited, and its value fits its rule. |
| IndexFacts.FieldsFromAcceptsExactly | index.js:89-97 | An object's fields are accepted exactly when each is. |
| IndexFacts.BlockAcceptsExactly | index.js:82-108 | `block` accepts exactly a string or an object of acceptable fields. |
| IndexFacts.ElemsAcceptsExactly | index.js:116-150 | `elems` accepts exactly a string, an all-string array or an object of acceptable fields. |
| IndexFacts.DepsAcceptsExactly | index.js:209-263 | `mustDeps`/`shouldDeps` accept exactly a string, an array of strings and acceptable declarations, or an acceptable declaration object; `mustDeps` also needs the object to have no `length`. |
| IndexFacts.EntriesFromAcceptsExactly | index.js:213-220 | A dependency array is accepted exactly when each entry is a string or an acceptable declaration. |
| IndexFacts.EntryAcceptsExactly | index.js:214-219 | One dependency entry is accepted exactly when it is a string or an acceptable declaration. |
| IndexFacts.DeclFieldsAcceptsExactly | index.js:325-351 | `validateDeclFields` accepts exactly an object whose keys are all listed and whose ruled fields fit their rules. |
| IndexFacts.DeclFieldsFromAcceptsExactly | index.js:329-341 | The loop of `validateDeclFields` accepts exactly when every remaining field is listed and fits. |
| IndexFacts.DeclFieldAcceptsExactly | index.js:330-340 | One field of `validateDeclFields` is accepted exactly when it is listed and fits its rule. |
| IndexRules.IndexKeyIsUnknown | index.js:267-279 | An index key has no rule, is not inherited and is not a listed field. |
| IndexFacts.IndexedFieldsAreInvalid | index.js:310-318 | Over an array or string, every index key yields exactly one "Invalid field (i) in declaration", in order. |
| IndexFacts.DeclarationAcceptsExactly | index.js:307-323 | A top-level declaration yields nothing exactly when it is an acceptable object, a number, a boolean, an empty string or an empty array. |
| IndexFacts.DeclarationsFromAcceptsExactly | index.js:288-294 | The declarations yield nothing exactly when each is acceptable. |
| IndexFacts.VerdictAcceptsExactly | index.js:285-305 | `validate` returns `false` exactly when every declaration of `[].concat(deps)` is acceptable. |
| IndexFacts.VerdictIsTheMessages | index.js:285-305 | `validate` throws exactly when a declaration does, returns `false` exactly when there are no messages, and otherwise returns exactly the flat message list. |
| IndexFacts.DeclarationsFromTotal | index.js:288-294 | Over object declarations with no inherited key anywhere, the loop never throws. |
| IndexFacts.VerdictTotalOnPlainObjects | index.js:285-305 | Over such declarations, `validate` never throws. |
| IndexFacts.InheritedKeyThrows | index.js:310-314 | A top-level key inherited from `Object.prototype` makes `validate` throw `TypeError`. |
| IndexFacts.ValAndModsLeaves | index.js:164-177 | `val` and `mods` entries accept booleans and strings; another leaf yields one message tagged `val` or `mods > key`; arrays go through the array check. |
| IndexFacts.ModsShapes | index.js:163-187 | A `mods` that is neither an array nor a lengthless object yields exactly one "Invalid mods declaration type" message; an array goes through the array check; an object yields at most one message per key. |
| IndexFacts.ModsObjectWithLength | index.js:163 | An object with a `length` is rejected as a `mods` of type object. |
| IndexFacts.UnknownFieldIgnoresValue | index.js:89-96 | A key outside the field list yields exactly one "Invalid field" message, whatever its value. |
| IndexFacts.UnruledFieldsAccepted | index.js:267-279 | The listed fields without a rule are `noDeps` and `include`, accepted with any value. |
| IndexFacts.SecondListTestUnreachable | index.js:337 | With a field list drawn from `validDeclFields`, the second membership test never fires. |
| IndexFacts.NonObjectDeclaration | index.js:342-346 | A non-object given to `validateDeclFields` yields exactly one "expected object" message. |
| IndexFacts.DepsSections | index.js:213-229 | A string section passes; a lengthless object is one declaration; another non-array, non-object section yields one "expected string, array or object" message; `mustDeps` rejects an object with a `length` and `shouldDeps` does not. |
| IndexFacts.DepsEntry | index.js:214-219 | A string entry passes, an object entry is walked with the same rules, and another entry yields one "expected object" message. |
| IndexFacts.BlockShapes | index.js:82-106 | A string `block` passes, an object's fields are checked with the same rules, and another kind yields one "expected string or object" message. |
| IndexFacts.ElemsShapes | index.js:116-144 | A string `elems` passes, an array goes through the array check, an object's fields are checked, and another kind yields one message. |
| IndexFacts.BundledExample | index.js:357-364 | The bundled example yields exactly one message, `NamedItemMsg("mods > type")` (`Invalid array item type in "mods > type": expected string`). |
| IndexFacts.BundledDeclaration | index.js:358-362 | The bundled declaration yields that one message. |
| IndexFacts.BundledEntry | index.js:361 | The bundled `mustDeps` entry yields that one message. |
| IndexFacts.BundledMods | index.js:361 | `mods: { type: ['pointer', null] }` yields that one message. |
| IndexFacts.TechAndBareElems | index.js:116-206 | A numeric `tech` is reported with its field name (`NamedTypeMsg("tech", "number")`) and nothing else; a bare-string `elems` passes. |
| IndexFacts.NestedDependencyAccepted | index.js:209-235 | A well-formed nested dependency tree yields `false`. |
| IndexFacts.NestedBlockReported | index.js:102-106 | `{ mustDeps: [{ block: 1 }] }` yields exactly one message, `BlockTypeMsg("number")`, with no path in it. |
| IndexFacts.HeaderElemsRejected | index.js:136-139 | The header's `elems` array of element declarations yields exactly `NamedItemMsg("elems")`. |
| BkpRules.ErrText | bkp.js:234 | `String(e)` of an error the validator builds (a message, or a non-empty array of such errors, joined by `toString` with commas) starts with "Invalid "; `BkpFacts.NestedErrorsJoinedWithCommas` shows the comma join. |
| BkpRules.JoinErrs | bkp.js:234 | Joining no errors is empty, joining one is its text, and joining a non-empty list of built errors starts with "Invalid ". |
| BkpRules.Pushed | bkp.js:76-78 | `(r \|\| []).length && errors.push(r)` pushes nothing exactly when `r` is not reportable, and at most one item. |
| BkpRules.OrTrue | bkp.js:121 | `errors.length ? errors : true` is `true` exactly when there are no errors, and reportable exactly otherwise. |
| BkpRules.StringCheck | bkp.js:38-44 | No message exactly for a string; otherwise one message naming the `typeof` kind and never the field. |
| BkpRules.ArrayCheck | bkp.js:51-59 | One message per array at most, none exactly when every item is a string. |
| BkpRules.ValRule | bkp.js:164-170 | Nothing exactly for a boolean or a string; otherwise one `typeof` message. |
| BkpRules.ModsEntry | bkp.js:135-148 | One entry of an object-form `mods` yields at most one error. |
| BkpRules.ModsFrom | bkp.js:135-149 | The entries yield at most one error each. |
| BkpRules.ModsRule | bkp.js:129-162 | `mods` returns `true` or a non-empty error array. |
| BkpRules.Rule | bkp.js:65-176 | A rule that returns gives a message or error array the validator built. |
| BkpRules.LookupAndCall | bkp.js:74 | `(validationRules[field] \|\| {}).valueValidation(...)` throws `TypeError` for a key without a rule. |
| BkpRules.BlockOuter | bkp.js:72-81 | The outer `forEach` of `block` completes exactly when one run of the inner loop does; `BkpFacts.BlockOuterCollapses` states that its outcome is that run's. |
| BkpRules.BlockPass | bkp.js:73-80 | The inner `forEach` of `block` completes only when every remaining key has a rule; `BkpFacts.BlockPassQuiet` and `BkpFacts.BlockThrowsAtFirstBadKey` state exactly when and how it throws. |
| BkpRules.BlockRule | bkp.js:67-86 | `block` never returns anything when it returns. |
| BkpRules.ElemsRule | bkp.js:92-123 | `elems` returns `true` or a non-empty error array. |
| BkpRules.ElemsFieldsFrom | bkp.js:103-110 | The errors of an object-form `elems` are well formed. |
| JsValues.DecimalInjective | bkp.js:284 | Different array indices have different `Object.keys` keys. |
| BkpRules.IndexMembers | bkp.js:284 | `Object.keys` of an array lists one key per item; the keys are pairwise distinct (by `JsValues.DecimalInjective`) and each starts with a digit, so none of them can be a field name. |
| BkpRules.DeclFields | bkp.js:280-306 | The errors of `validateDeclFields` are well formed. |
| BkpRules.DeclFieldsFrom | bkp.js:284-296 | The errors of its loop are well formed. |
| BkpRules.DeclField | bkp.js:285-294 | One field adds at most one well-formed error. |
| BkpRules.Section | bkp.js:254-278 | The errors of `validateSection` are well formed. |
| BkpRules.SectionEntriesFrom | bkp.js:258-264 | The errors of its loop are well formed. |
| BkpRules.SectionEntry | bkp.js:259-263 | One entry adds at most one well-formed error. |
| BkpRules.Property | bkp.js:237 | `decl['mustDeps']` throws exactly for null and undefined. |
| BkpRules.Joined | bkp.js:240 | A non-empty error list adds exactly one joined part, an empty one none. |
| BkpRules.SectionParts | bkp.js:237-247 | A section adds at most one part. |
| BkpRules.DeclarationParts | bkp.js:228-248 | A declaration gathers at most three parts. |
| BkpRules.DeclarationMessage | bkp.js:228-252 | `validateDepsDeclaration` returns a string or `undefined`. |
| BkpRules.Reported | bkp.js:214-216 | A declaration adds at most one report. |
| BkpRules.DeclarationsFrom | bkp.js:211-217 | The loop of `validate` returns exactly when every declaration's check returns, and keeps at most one report per declaration. What it accepts is `BkpFacts.DeclarationsFromQuiet`. |
| BkpRules.Verdict | bkp.js:208-226 | `validate` returns exactly when every declaration of `[].concat(deps)` returns. `BkpFacts.VerdictQuietExactly` states when it is `false`, and `BkpFacts.VerdictIsTheReports` that otherwise it is the reports joined with commas. |
| BkpWalker.CheckRule | bkp.js:65-176 | The rule table dispatch computes `BkpRules.Rule`. |
| BkpWalker.CallRule | bkp.js:74 | The lookup that may throw computes `BkpRules.LookupAndCall`. |
| BkpWalker.CheckBlock | bkp.js:67-86 | `block` with its two nested loops computes `BkpRules.BlockRule`. |
| BkpWalker.CheckElems | bkp.js:92-123 | `elems` with its loop computes `BkpRules.ElemsRule`. |
| BkpWalker.CheckMods | bkp.js:129-162 | `mods` with its loop computes `BkpRules.ModsRule`. |
| BkpWalker.ValidateDeclFields | bkp.js:280-306 | `validateDeclFields` computes `BkpRules.DeclFields`. |
| BkpWalker.CheckDeclFields | bkp.js:284-296 | The `forEach` over the keys of `validateDeclFields`, with its `Prepend` invariant, computes `BkpRules.DeclFieldsFrom`. |
| BkpWalker.ValidateSection | bkp.js:254-278 | `validateSection` computes `BkpRules.Section`. |
| BkpWalker.ValidateDepsDeclaration | bkp.js:228-252 | `validateDepsDeclaration` computes `BkpRules.DeclarationMessage`. |
| BkpWalker.Validate | bkp.js:208-226 | `validate` computes `BkpRules.Verdict`. |
| BkpWalker.DeclarationsStep | bkp.js:212-216 | One iteration of `validate` adds the declaration's report. |
| BkpFacts.ModsFromQuiet | bkp.js:135-149 | The entries of an object-form `mods` yield nothing exactly when each is a boolean, a string or an all-string array. |
| BkpFacts.ModsEntryQuiet | bkp.js:136-148 | One `mods` entry yields nothing exactly on those values. |
| BkpFacts.RuleQuietExactly | bkp.js:65-176 | A rule returns and reports nothing exactly on the shape `BkpSchema.Quiet` gives it. |
| BkpFacts.LookupQuietExactly | bkp.js:74 | The lookup is quiet exactly for a key with a rule whose value is quiet. |
| BkpFacts.BlockQuietExactly | bkp.js:67-86 | `block` is quiet exactly for a non-object or an object whose keys all have quiet rules. |
| BkpFacts.BlockPassQuiet | bkp.js:73-80 | The inner loop of `block` completes exactly when every key has a quiet rule. |
| BkpFacts.ElemsQuietExactly | bkp.js:92-123 | `elems` is quiet exactly for a string, an all-string array or an object whose keys all have quiet rules. |
| BkpFacts.ElemsFieldsQuiet | bkp.js:103-110 | The loop of `elems` yields nothing exactly when every key has a quiet rule. |
| BkpFacts.BlockOuterCollapses | bkp.js:72-81 | The outer loop of `block` has the outcome of one run of the inner loop. |
| BkpFacts.DeclFieldQuiet | bkp.js:285-294 | One field adds nothing exactly when it is listed and its rule, if any, is quiet. |
| BkpFacts.DeclFieldsFromQuiet | bkp.js:284-296 | The loop of `validateDeclFields` adds nothing exactly when every field is. |
| BkpFacts.IndexKeyNotListed | bkp.js:178-204 | No index key is in a list made of names. |
| BkpFacts.DeclFieldsQuiet | bkp.js:280-306 | `validateDeclFields` returns nothing exactly on `BkpSchema.QuietDecl`: an object with listed keys and quiet rules, or an empty array. |
| BkpFacts.FieldListsAreNames | bkp.js:178-204 | Neither field list holds anything like an index key. |
| BkpFacts.SectionEntryQuiet | bkp.js:259-263 | One section entry adds nothing exactly when it is a string or a quiet declaration. |
| BkpFacts.SectionEntriesQuiet | bkp.js:258-264 | An array section adds nothing exactly when every entry is. |
| BkpFacts.SectionQuiet | bkp.js:254-278 | `validateSection` returns nothing exactly on `BkpSchema.QuietSection`. |
| BkpFacts.SectionPartsQuiet | bkp.js:237-247 | A section adds no part exactly when it is falsy or quiet. |
| BkpFacts.DeclarationQuiet | bkp.js:228-252 | `validateDepsDeclaration` returns `undefined` exactly on `BkpSchema.QuietDeclaration`. |
| BkpFacts.JoinedAreMessages | bkp.js:234 | A joined part is an "Invalid ..." text. |
| BkpFacts.DeclarationReportIsMessage | bkp.js:249-251 | A declaration's report is an "Invalid ..." text. |
| BkpFacts.SectionPartsAreMessages | bkp.js:237-247 | A section's part is an "Invalid ..." text. |
| BkpFacts.DeclarationsFromQuiet | bkp.js:211-217 | The loop of `validate` gathers nothing exactly when every declaration is quiet. |
| BkpFacts.VerdictQuietExactly | bkp.js:208-226 | `validate` returns `false` exactly when every declaration of `[].concat(deps)` is quiet. |
| BkpFacts.ReportsAreMessages | bkp.js:211-217 | Every gathered report is an "Invalid ..." text. |
| BkpFacts.VerdictIsTheReports | bkp.js:219-225 | `validate` throws exactly when a declaration does; otherwise it is the reports joined with commas, and that string is an "Invalid ..." text. |
| BkpFacts.StringCheckUsesTypeof | bkp.js:38-44 | null and arrays are reported as `object`, undefined as `undefined`. |
| BkpFacts.TrueCountsAsNoError | bkp.js:291 | For `elems` and `mods`, a field adds nothing exactly when the rule returns `true`, because `true.length` is undefined; a string `elems` returns `true`. |
| BkpFacts.BlockNeverReports | bkp.js:82-84 | `block` on a non-object returns nothing, and a `block` field never adds an error: it adds nothing or throws. |
| BkpFacts.BlockPassFirstBad | bkp.js:73-80 | The inner loop of `block` throws the failure of the first key whose rule is missing, throws or reports. |
| BkpFacts.BlockThrowsAtFirstBadKey | bkp.js:71-81 | Object-form `block` throws `TypeError` at the first key without a rule, and `ReferenceError` at the first reportable one. |
| BkpFacts.DeclFieldCases | bkp.js:285-294 | A key outside the list yields one "Invalid field" message; a listed key without a rule is not read; those keys are `mustDeps`, `shouldDeps`, `noDeps` and `include`. |
| BkpFacts.NonObjectDeclaration | bkp.js:297-301 | A non-object yields one "expected object" message naming its `typeof`; null throws. |
| BkpFacts.IndexKeysAreInvalid | bkp.js:283-286 | Every item of an array declaration yields one "Invalid field (i) in declaration", in order. |
| BkpFacts.FieldListsAgree | bkp.js:178-204 | The two field lists hold the same names, so `validateDeclFields` answers the same with either. |
| BkpFacts.SameListsFrom | bkp.js:284-296 | The loop answers the same with either field list. |
| BkpFacts.UnruledValueNeverRead | bkp.js:285-294 | Changing the value of a key without a rule never changes `validateDeclFields`. |
| BkpFacts.ReplacedFrom | bkp.js:284-296 | The same, for the loop from any index. |
| BkpFacts.GetUnchanged | bkp.js:237 | Changing another key's value does not change `decl[key]`. |
| BkpFacts.OnlyTopLevelSectionsAreChecked | bkp.js:237-247 | Inside a declaration, the value of `noDeps` or `include` never changes its result: nested dependency lists are never checked. |
| BkpFacts.SectionCases | bkp.js:257-273 | A string section passes, null throws, a number, boolean or undefined yields one "expected string, array or object" message, as does an object with a `length`; an all-string array passes. |
| BkpFacts.BundledExample | bkp.js:312-319 | The bundled example with an object-form `block` yields `false`. |
| BkpFacts.NestedErrorsJoinedWithCommas | bkp.js:232-234 | The errors of an object-form `elems` are pushed as one array, and `toString` joins them with a comma. |
| BkpFacts.NullEntryThrows | bkp.js:258-262 | A `null` entry in `mustDeps` makes `validate` throw `TypeError`. |
| BkpFacts.BlockInnerMessageThrows | bkp.js:77 | A wrong inner field of an object-form `block` makes `validate` throw `ReferenceError`. |
| BkpFacts.FalsyDeclarations | bkp.js:231-237 | A null or undefined declaration throws; another falsy one is skipped. |
| BkpFacts.HeaderElemsRejected | bkp.js:111-113 | The header's `elems` array of element declarations yields exactly one array of one array-item message. |

## Left out

- `forEntityTech` in both files: it runs the file's text as code with `vm.runInThisContext` and reports through the host's `entity.addError`. That is foreign execution and I/O.
- The module-level `validator.validate(...)` calls: their results are discarded. They appear only as the example lemmas.
- lodash `flattenDeep`: `index.js` is modelled with messages concatenated into one flat `seq<string>`. Every pushed item is non-empty, so flattening loses nothing.
- Numbers are kept only as a truthiness tag. The validators never compute with them, and no floating point is modelled.
- Functions, dates, regular expressions, symbols and other host objects are not values of the model. So the full `Object.prototype.toString` and `typeof` tables are not modelled.
- `Object.keys` order: an object is its own keys in the order given. JavaScript's rule that integer-like keys come first is not modelled. Nor are duplicate keys or cyclic trees.
- A string's index keys assume one UTF-16 unit per character. Astral characters are not modelled.
- IndexRules.ModsEntry, IndexRules.ModsFrom, IndexRules.ModsRule, BkpRules.ModsEntry and BkpRules.ModsFrom: their own contracts state only bounds and well-formedness. Which values they accept is proved separately, by IndexFacts.ModsFromAccepts, IndexFacts.ValAndModsLeaves, IndexFacts.ModsShapes and BkpFacts.ModsFromQuiet.
- IndexRules.Rule and the other `index.js` rule functions: their own contracts state when they cannot throw. What they accept is proved by the `IndexFacts.*AcceptsExactly` lemmas.
- BkpRules.DeclFields, BkpRules.Section and the other `bkp.js` walker functions: their own contracts state only the form of their errors. What they accept is proved by the `BkpFacts.*Quiet` lemmas.
