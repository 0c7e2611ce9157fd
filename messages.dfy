/** The texts of the validators' messages. Both variants word them the same
    way; `kind` is what `toType` (index.js) or `typeof` (bkp.js) reports. */
module Messages {

  function NamedTypeMsg(field: string, kind: string): (m: string)
    ensures IsMessage(m)
  {
    "Invalid type at field \"" + field + "\": " + kind + " (expected string)"
  }

  function TypeMsg(kind: string): (m: string)
    ensures IsMessage(m)
  {
    "Invalid type: " + kind + " (expected string)"
  }

  function NamedItemMsg(field: string): (m: string)
    ensures IsMessage(m)
  {
    "Invalid array item type in \"" + field + "\": expected string"
  }

  const ItemMsg: string := "Invalid array item type: expected string"

  function InvalidFieldMsg(field: string): (m: string)
    ensures IsMessage(m)
  {
    "Invalid field (" + field + ") in declaration"
  }

  function BlockTypeMsg(kind: string): (m: string)
    ensures IsMessage(m)
  {
    "Invalid block declaration type (" + kind + "), expected string or object"
  }

  function ElemsTypeMsg(kind: string): (m: string)
    ensures IsMessage(m)
  {
    "Invalid elems declaration type (" + kind + "), expected string, array or object"
  }

  function ModsTypeMsg(kind: string): (m: string)
    ensures IsMessage(m)
  {
    "Invalid mods declaration type (" + kind + "), expected array or object"
  }

  function DepsTypeMsg(kind: string): (m: string)
    ensures IsMessage(m)
  {
    "Invalid declaration type (" + kind + "), expected string, array or object"
  }

  function DeclTypeMsg(kind: string): (m: string)
    ensures IsMessage(m)
  {
    "Invalid declaration type (" + kind + "), expected object"
  }

  /** Every message the validator produces starts with "Invalid ". */
  predicate IsMessage(m: string) {
    "Invalid " <= m
  }

  predicate AllMessages(ms: seq<string>) {
    forall m <- ms :: IsMessage(m)
  }

  /** Text appended to a message leaves it a message. */
  lemma PrefixIsMessage(a: string, b: string)
    requires IsMessage(a)
    ensures IsMessage(a + b)
  {
    assert (a + b)[..|"Invalid "|] == a[..|"Invalid "|];
  }
}
