/** Value shapes on which both variants of the validator agree. */
module CommonShapes {
  import opened JsValues

  /** Every item is a string (vacuously so for an empty array). */
  predicate AllStrings(items: seq<Value>) {
    forall i :: 0 <= i < |items| ==> items[i].Str?
  }

  /** An entry of an object-form `mods`: a boolean, a string or an array of
      strings. */
  predicate GoodModValue(v: Value) {
    v.Bool? || v.Str? || (v.Arr? && AllStrings(v.items))
  }
}
