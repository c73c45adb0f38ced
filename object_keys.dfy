/**
 * The order in which `Object.keys` lists the own keys of a plain JavaScript object: keys that
 * are array indices (canonical decimal numerals below 2^32 - 1) come first in ascending numeric
 * order, then every other key in the order it was first created. The upload handler reads only
 * the first of them (`Object.keys(fileMap)[0] || ''`).
 */
module ObjectKeys {
  import opened Wrappers

  /** 2^32 - 1: array indices are the integers strictly below it. */
  const ArrayIndexLimit: nat := 4294967295

  predicate IsDigit(c: char) { '0' <= c <= '9' }

  /** The value of a decimal numeral (non-digits count as 0; only numerals are ever asked). */
  function DecimalValue(s: string): nat
  {
    if |s| == 0 then 0
    else DecimalValue(s[..|s| - 1]) * 10 + (if IsDigit(s[|s| - 1]) then s[|s| - 1] as int - '0' as int else 0)
  }

  /** A key that JavaScript treats as an array index: a canonical numeral without leading zeros. */
  predicate IsArrayIndex(key: string)
  {
    && 0 < |key|
    && (forall i :: 0 <= i < |key| ==> IsDigit(key[i]))
    && (key[0] != '0' || |key| == 1)
    && DecimalValue(key) < ArrayIndexLimit
  }

  /** The array-index key of `order` with the least numeric value, if there is one. */
  function LeastIndexKey(order: seq<string>): (r: Option<string>)
    ensures r.Some? ==> r.value in order && IsArrayIndex(r.value)
    ensures r.Some? ==> forall key :: key in order && IsArrayIndex(key) ==> DecimalValue(r.value) <= DecimalValue(key)
    ensures r.None? ==> forall key :: key in order ==> !IsArrayIndex(key)
  {
    if |order| == 0 then None
    else
      var rest := LeastIndexKey(order[1..]);
      assert forall key :: key in order ==> key == order[0] || key in order[1..];
      if !IsArrayIndex(order[0]) then rest
      else if rest.Some? && DecimalValue(rest.value) < DecimalValue(order[0]) then rest
      else Some(order[0])
  }

  /**
   * `Object.keys(o)[0] || ''` for an object whose keys were created in the order `order`
   * (no key twice): the least array-index key when there is one, otherwise the oldest key,
   * and the empty string for an object without keys.
   */
  function FirstOwnKey(order: seq<string>): (k: string)
    ensures |order| == 0 ==> k == ""
    ensures |order| > 0 ==> k in order
    ensures (exists key :: key in order && IsArrayIndex(key)) ==>
              IsArrayIndex(k) && forall key :: key in order && IsArrayIndex(key) ==> DecimalValue(k) <= DecimalValue(key)
    ensures |order| > 0 && (forall key :: key in order ==> !IsArrayIndex(key)) ==> k == order[0]
  {
    if |order| == 0 then ""
    else
      match LeastIndexKey(order)
      case Some(key) => key
      case None => order[0]
  }
}
