/** `getQuestionSearchParams`: writing the page's search state back into the query
    string. The query string is modelled as the list of name/value pairs a
    `URLSearchParams` object holds. */
module QueryParams {
  import opened LogoTypes

  type Pair = (string, string)

  /** The JavaScript values a field of the search state can hold. */
  datatype JsValue = Undefined | Null | Str(s: string) | Num(n: int)

  /** JavaScript falsiness: `undefined`, `null`, the empty string and zero. */
  predicate Falsy(v: JsValue) {
    v.Undefined? || v.Null? || v == Str("") || v == Num(0)
  }

  /** The decimal digits of a natural number. */
  function NatToDecimal(n: nat): (r: string)
    ensures |r| > 0
  {
    if n < 10 then ["0123456789"[n]] else NatToDecimal(n / 10) + ["0123456789"[n % 10]]
  }

  /** `String(v)`, as `URLSearchParams.set` converts its value. */
  function AsString(v: JsValue): string {
    match v
    case Undefined => "undefined"
    case Null => "null"
    case Str(s) => s
    case Num(n) => if n < 0 then "-" + NatToDecimal(-n) else NatToDecimal(n)
  }

  /** The keys of `DEFAULT_LOGO_SEARCH_STATE`, in declaration order. */
  const SearchKeys: seq<string> := ["count", "logo_id", "index"]

  /** `logoSearchState[key]`: a missing field reads as `undefined`. */
  function StateValue(state: map<string, JsValue>, key: string): JsValue {
    if key in state then state[key] else Undefined
  }

  /** Pair `i` is the first pair with that name. */
  predicate FirstNamed(pairs: seq<Pair>, name: string, i: int) {
    0 <= i < |pairs| && pairs[i].0 == name && forall j :: 0 <= j < i ==> pairs[j].0 != name
  }

  /** `URLSearchParams.get`: the value of the first pair with that name. */
  function Lookup(pairs: seq<Pair>, name: string): (r: Option<string>)
    ensures r.None? <==> forall i :: 0 <= i < |pairs| ==> pairs[i].0 != name
    ensures r.Some? ==> exists i :: FirstNamed(pairs, name, i) && pairs[i].1 == r.value
  {
    if |pairs| == 0 then None
    else if pairs[0].0 == name then Some(pairs[0].1)
    else
      var rest := Lookup(pairs[1..], name);
      assert forall i :: 1 <= i < |pairs| ==> pairs[i] == pairs[1..][i - 1];
      assert rest.Some? ==> exists i :: FirstNamed(pairs, name, i) && pairs[i].1 == rest.value by {
        if rest.Some? {
          var i :| FirstNamed(pairs[1..], name, i) && pairs[1..][i].1 == rest.value;
          assert pairs[i + 1] == pairs[1..][i];
          forall j | 0 <= j < i + 1 ensures pairs[j].0 != name {
            if j > 0 { assert pairs[j] == pairs[1..][j - 1]; }
          }
          assert FirstNamed(pairs, name, i + 1);
        }
      }
      rest
  }

  /** The pairs whose names are not in `names`, in their order. */
  function Except(pairs: seq<Pair>, names: set<string>): (r: seq<Pair>)
    ensures forall p :: p in r <==> p in pairs && p.0 !in names
  {
    if |pairs| == 0 then []
    else
      var rest := Except(pairs[1..], names);
      assert forall p :: p in pairs <==> p == pairs[0] || p in pairs[1..];
      if pairs[0].0 in names then rest else [pairs[0]] + rest
  }

  /** `URLSearchParams.set`: the first pair with the name gets the value and the other
      pairs with that name are removed; without such a pair, one is appended. */
  function SetValue(pairs: seq<Pair>, name: string, value: string): seq<Pair> {
    if |pairs| == 0 then [(name, value)]
    else if pairs[0].0 == name then [(name, value)] + Except(pairs[1..], {name})
    else [pairs[0]] + SetValue(pairs[1..], name, value)
  }

  /** The browser's `URLSearchParams` object: a list of name/value pairs updated in place. */
  class UrlSearchParams {
    var entries: seq<Pair>

    constructor (init: seq<Pair>)
      ensures entries == init
    {
      entries := init;
    }

    function Get(name: string): Option<string>
      reads this
    {
      Lookup(entries, name)
    }

    /** `delete(name)`: every pair with that name is removed. */
    method Delete(name: string)
      modifies this
      ensures entries == Except(old(entries), {name})
    {
      entries := Except(entries, {name});
    }

    method Set(name: string, value: string)
      modifies this
      ensures entries == SetValue(old(entries), name, value)
    {
      entries := SetValue(entries, name, value);
    }
  }

  /** The query string holds the state's value for `key`, and no pair for it when that
      value is falsy. */
  predicate Written(pairs: seq<Pair>, state: map<string, JsValue>, key: string) {
    var v := StateValue(state, key);
    Lookup(pairs, key) == if Falsy(v) then None else Some(AsString(v))
  }

  /** `getQuestionSearchParams(logoSearchState)`, starting from the current query
      pairs `query` instead of `window.location.search`. A recognised key whose state
      value is falsy is deleted; otherwise it is set, unless it already holds the same
      string. Other keys keep their pairs, in order. */
  method QuestionSearchParams(query: seq<Pair>, state: map<string, JsValue>) returns (r: seq<Pair>)
    ensures forall key :: key in SearchKeys ==> Written(r, state, key)
    ensures Except(r, set k | k in SearchKeys) == Except(query, set k | k in SearchKeys)
  {
    var urlParams := new UrlSearchParams(query);
    ghost var keys := set k | k in SearchKeys;
    var i := 0;
    while i < |SearchKeys|
      invariant 0 <= i <= |SearchKeys|
      invariant forall j :: 0 <= j < i ==> Written(urlParams.entries, state, SearchKeys[j])
      invariant Except(urlParams.entries, keys) == Except(query, keys)
    {
      var key := SearchKeys[i];
      var value := StateValue(state, key);
      ghost var before := urlParams.entries;
      assert forall j :: 0 <= j < i ==> SearchKeys[j] != key;
      // `urlParams.get(key)` is a string or null, never undefined: only falsiness decides.
      if Falsy(value) {
        urlParams.Delete(key);
        DeleteLeavesOthers(before, key);
        ExceptAbsorbs(before, key, keys);
      } else if !(value.Str? && urlParams.Get(key) == Some(value.s)) {
        // A number is never strictly equal to the string `get` returns.
        urlParams.Set(key, AsString(value));
        SetValueReads(before, key, AsString(value));
        SetValueLeavesOthers(before, key, AsString(value), keys);
      }
      i := i + 1;
    }
    r := urlParams.entries;
  }

  // ---------------------------------------------------------------------------
  // Properties of `delete` and `set`

  /** Deleting a name leaves the values of the other names as they were. */
  lemma {:induction false} DeleteLeavesOthers(pairs: seq<Pair>, name: string)
    ensures Lookup(Except(pairs, {name}), name) == None
    ensures forall other :: other != name ==> Lookup(Except(pairs, {name}), other) == Lookup(pairs, other)
  {
    if |pairs| > 0 {
      DeleteLeavesOthers(pairs[1..], name);
    }
  }

  /** Removing a name that is among `names` does not change the pairs outside `names`. */
  lemma {:induction false} ExceptAbsorbs(pairs: seq<Pair>, name: string, names: set<string>)
    requires name in names
    ensures Except(Except(pairs, {name}), names) == Except(pairs, names)
  {
    if |pairs| > 0 {
      ExceptAbsorbs(pairs[1..], name, names);
    }
  }

  /** After `set`, the name reads as the value and every other name reads as before. */
  lemma {:induction false} SetValueReads(pairs: seq<Pair>, name: string, value: string)
    ensures Lookup(SetValue(pairs, name, value), name) == Some(value)
    ensures forall other :: other != name ==> Lookup(SetValue(pairs, name, value), other) == Lookup(pairs, other)
  {
    if |pairs| > 0 {
      if pairs[0].0 == name {
        DeleteLeavesOthers(pairs[1..], name);
      } else {
        SetValueReads(pairs[1..], name, value);
      }
    }
  }

  /** `set` on a name among `names` does not change the pairs outside `names`. */
  lemma {:induction false} SetValueLeavesOthers(pairs: seq<Pair>, name: string, value: string, names: set<string>)
    requires name in names
    ensures Except(SetValue(pairs, name, value), names) == Except(pairs, names)
  {
    if |pairs| > 0 {
      if pairs[0].0 == name {
        ExceptAbsorbs(pairs[1..], name, names);
        assert Except(SetValue(pairs, name, value), names) == Except(Except(pairs[1..], {name}), names);
      } else {
        SetValueLeavesOthers(pairs[1..], name, value, names);
      }
    }
  }
}
