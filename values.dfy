/** The membership helpers of utilities/fs_utility.js (`arrayOf`,
    `contains`, `containsAny`) over a model of the JavaScript values they
    receive. Arrays, plain objects and functions carry a reference
    identity, because `Array.prototype.includes` compares them by
    reference. */
module JsValues {
  import opened Strings

  datatype JsValue =
    | Undefined
    | Null
    | Bool(b: bool)
    | Num(n: int)
    | Str(s: string)
    | Arr(ref: nat, elems: seq<JsValue>)
    | Obj(ref: nat, keys: set<string>)
    | Fun(ref: nat, source: string)

  /** String coercion, as `value + ''` and `String.prototype.includes`
      apply it: an array is the comma-joined coercion of its elements with
      `null` and `undefined` as empty strings, a plain object is
      "[object Object]", a function is its source text. */
  function ToStr(v: JsValue): string
    decreases v
  {
    match v
    case Undefined => "undefined"
    case Null => "null"
    case Bool(b) => if b then "true" else "false"
    case Num(n) => IntToDecimal(n)
    case Str(s) => s
    case Arr(_, es) =>
      JoinWith(seq(|es|, i requires 0 <= i < |es| =>
        if es[i].Null? || es[i].Undefined? then "" else ToStr(es[i])), ",")
    case Obj(_, _) => "[object Object]"
    case Fun(_, source) => source
  }

  /** SameValueZero, the comparison of `Array.prototype.includes`:
      reference identity for arrays, objects and functions, value equality
      for the primitives. */
  predicate SameValueZero(a: JsValue, b: JsValue)
  {
    match (a, b)
    case (Arr(r, _), Arr(q, _)) => r == q
    case (Obj(r, _), Obj(q, _)) => r == q
    case (Fun(r, _), Fun(q, _)) => r == q
    case _ => a == b
  }

  /** `arrayOf`: the elements of an array, and no elements for anything else. */
  function ArrayOf(v: JsValue): (r: seq<JsValue>)
    ensures v.Arr? ==> r == v.elems
    ensures !v.Arr? ==> r == []
  {
    if v.Arr? then v.elems else []
  }

  /** `contains(searchItem, searchValue)`. */
  predicate Contains(item: JsValue, value: JsValue)
  {
    match item
    case Null => value == Null
    case Arr(_, es) => exists i :: 0 <= i < |es| && SameValueZero(es[i], value)
    case Str(s) => Includes(s, ToStr(value))
    case Obj(_, keys) => ToStr(value) in keys
    case _ => false
  }

  /** The length of `values.filter(part => contains(item, part))`. */
  function CountContained(item: JsValue, values: seq<JsValue>): (n: nat)
    ensures n <= |values|
    decreases |values|
  {
    if values == [] then 0
    else (if Contains(item, values[0]) then 1 else 0) + CountContained(item, values[1..])
  }

  /** `containsAny(item, values)`: the filter over `arrayOf(values)` kept
      something. */
  predicate ContainsAny(item: JsValue, values: JsValue)
  {
    CountContained(item, ArrayOf(values)) != 0
  }

  /** The filter keeps something exactly when some element is contained. */
  lemma {:induction false} CountContainedPositive(item: JsValue, values: seq<JsValue>)
    ensures CountContained(item, values) != 0 <==> exists i :: 0 <= i < |values| && Contains(item, values[i])
    decreases |values|
  {
    if values != [] {
      CountContainedPositive(item, values[1..]);
      if exists i :: 0 <= i < |values| && Contains(item, values[i]) {
        var i :| 0 <= i < |values| && Contains(item, values[i]);
        if i > 0 {
          assert Contains(item, values[1..][i - 1]);
        }
      }
      if exists i :: 0 <= i < |values[1..]| && Contains(item, values[1..][i]) {
        var i :| 0 <= i < |values[1..]| && Contains(item, values[1..][i]);
        assert Contains(item, values[i + 1]);
      }
    }
  }

  /** `containsAny` is true iff `values` is an array with an element that
      `item` contains; a non-array or empty `values` gives false. */
  lemma ContainsAnyIff(item: JsValue, values: JsValue)
    ensures ContainsAny(item, values) <==>
      values.Arr? && exists i :: 0 <= i < |values.elems| && Contains(item, values.elems[i])
    ensures !values.Arr? || values.elems == [] ==> !ContainsAny(item, values)
  {
    CountContainedPositive(item, ArrayOf(values));
  }

  /** A string array literal such as `['ttf', 'otf']`. Every such literal
      gets reference 0; the model only searches inside them and never
      compares two of them by identity. */
  function Words(ws: seq<string>): (r: JsValue)
    ensures r.Arr? && |r.elems| == |ws|
    ensures forall i :: 0 <= i < |ws| ==> r.elems[i] == Str(ws[i])
  {
    Arr(0, seq(|ws|, i requires 0 <= i < |ws| => Str(ws[i])))
  }

  /** `contains` of a string in a string is `includes`. */
  lemma ContainsStrings(s: string, t: string)
    ensures Contains(Str(s), Str(t)) <==> Includes(s, t)
  {
  }

  /** `contains` on a `null` item holds only for a `null` value. */
  lemma ContainsNull(value: JsValue)
    ensures Contains(Null, value) <==> value == Null
  {
  }

  /** `contains` on a plain object is own-key presence of the value's
      string form. */
  lemma ContainsObjectKey(r: nat, keys: set<string>, value: JsValue)
    ensures Contains(Obj(r, keys), value) <==> ToStr(value) in keys
  {
  }

  /** `contains` on `undefined`, a boolean, a number or a function is
      always false. */
  lemma ContainsNothingElse(item: JsValue, value: JsValue)
    requires item.Undefined? || item.Bool? || item.Num? || item.Fun?
    ensures !Contains(item, value)
  {
  }

  /** `containsAny` of a string against a string array literal: some word
      occurs in the string. */
  lemma ContainsAnyWords(s: string, ws: seq<string>)
    ensures ContainsAny(Str(s), Words(ws)) <==> exists i :: 0 <= i < |ws| && Includes(s, ws[i])
  {
    ContainsAnyIff(Str(s), Words(ws));
    if exists i :: 0 <= i < |ws| && Includes(s, ws[i]) {
      var i :| 0 <= i < |ws| && Includes(s, ws[i]);
      assert Contains(Str(s), Words(ws).elems[i]);
    }
  }

  /** An array contains a value iff some element is the same value: for
      strings and numbers this is equality, for arrays it is identity, so a
      structurally equal copy (another reference) is not contained while
      the array itself is. */
  lemma ArrayContainsByIdentity(es: seq<JsValue>, outer: nat, r: nat, q: nat)
    requires outer != r && outer != q && r != q
    ensures !Contains(Arr(outer, [Arr(r, es)]), Arr(q, es))
    ensures Contains(Arr(outer, [Arr(r, es)]), Arr(r, es))
  {
    assert SameValueZero(Arr(outer, [Arr(r, es)]).elems[0], Arr(r, es));
  }
}
