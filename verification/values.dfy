/** The Python values that flow through the system: what a literal parse of a
    model's answer yields and what the fact-checking pipeline returns as its
    JSON-like result. Only the operations the modelled code applies to them
    are defined: truthiness, `len`, integer subscripts, iteration, `dict(...)`,
    `d.get(k, default)`, `d[k] = v`, `isinstance(v, list)` and `str(v)`. */
module Values {
  import opened Optional
  import opened Text

  /** A Python value. A dict is its entries in insertion order (Python keeps
      dicts ordered), with string keys; every dict Python builds has distinct
      keys, and lookups here take the first matching entry. */
  datatype Value =
    | VNone
    | VBool(b: bool)
    | VInt(i: int)
    | VStr(s: string)
    | VList(items: seq<Value>)
    | VTuple(elems: seq<Value>)
    | VDict(entries: Dict)

  type Dict = seq<(string, Value)>

  /** Python's `bool(v)`: `None`, `False`, `0` and empty containers are falsy. */
  predicate Truthy(v: Value) {
    match v
    case VNone => false
    case VBool(b) => b
    case VInt(i) => i != 0
    case VStr(s) => |s| > 0
    case VList(items) => |items| > 0
    case VTuple(elems) => |elems| > 0
    case VDict(entries) => |entries| > 0
  }

  predicate HasKey(d: Dict, k: string) {
    exists j :: 0 <= j < |d| && d[j].0 == k
  }

  /** `d[k]` when `k in d`, `None` when the key is missing. */
  function Lookup(d: Dict, k: string): (r: Option<Value>)
    ensures r.Some? <==> HasKey(d, k)
    ensures r.Some? ==> (k, r.value) in d
    ensures r.None? ==> forall j :: 0 <= j < |d| ==> d[j].0 != k
  {
    if |d| == 0 then None
    else if d[0].0 == k then Some(d[0].1)
    else
      var r := Lookup(d[1..], k);
      assert forall j :: 1 <= j < |d| ==> d[j] == d[1..][j - 1];
      r
  }

  /** Python's `d.get(k, default)`. */
  function Get(d: Dict, k: string, default: Value): (r: Value)
    ensures HasKey(d, k) ==> Lookup(d, k) == Some(r)
    ensures !HasKey(d, k) ==> r == default
  {
    match Lookup(d, k)
    case Some(v) => v
    case None => default
  }

  /** Python's `d[k] = v`: an existing key keeps its place and takes the new
      value, a new key is appended; every other key keeps its value. */
  function Put(d: Dict, k: string, v: Value): (r: Dict)
    ensures Lookup(r, k) == Some(v)
    ensures forall k' :: k' != k ==> Lookup(r, k') == Lookup(d, k')
    ensures HasKey(d, k) ==> |r| == |d|
    ensures !HasKey(d, k) ==> r == d + [(k, v)]
  {
    if |d| == 0 then [(k, v)]
    else if d[0].0 == k then [(k, v)] + d[1..]
    else
      var rest := Put(d[1..], k, v);
      assert d == [d[0]] + d[1..];
      PutStepLookup(d[0], d[1..], k, v, rest);
      PutStepShape(d[0], d[1..], k, v, rest);
      [d[0]] + rest
  }

  /** The recursive step of `Put` for lookups: an entry with another key
      in front of a correct assignment keeps every lookup correct. */
  lemma PutStepLookup(p: (string, Value), d: Dict, k: string, v: Value, rest: Dict)
    requires p.0 != k
    requires Lookup(rest, k) == Some(v)
    requires forall k' :: k' != k ==> Lookup(rest, k') == Lookup(d, k')
    ensures Lookup([p] + rest, k) == Some(v)
    ensures forall k' :: k' != k ==> Lookup([p] + rest, k') == Lookup([p] + d, k')
  {
    LookupCons(p, rest, k);
    forall k' | k' != k ensures Lookup([p] + rest, k') == Lookup([p] + d, k') {
      LookupCons(p, rest, k');
      LookupCons(p, d, k');
    }
  }

  /** The recursive step of `Put` for the entries: an existing key keeps the
      length, and a new key is still appended at the end. */
  lemma PutStepShape(p: (string, Value), d: Dict, k: string, v: Value, rest: Dict)
    requires p.0 != k
    requires HasKey(d, k) ==> |rest| == |d|
    requires !HasKey(d, k) ==> rest == d + [(k, v)]
    ensures HasKey([p] + d, k) ==> |[p] + rest| == |[p] + d|
    ensures !HasKey([p] + d, k) ==> [p] + rest == [p] + d + [(k, v)]
  {
    if HasKey(d, k) {
      var j :| 0 <= j < |d| && d[j].0 == k;
      assert ([p] + d)[j + 1].0 == k;
    } else {
      forall j | 0 <= j < |[p] + d| ensures ([p] + d)[j].0 != k {
        if j > 0 {
          assert ([p] + d)[j] == d[j - 1];
        }
      }
      assert [p] + d + [(k, v)] == [p] + (d + [(k, v)]);
    }
  }

  /** Assigning an existing key rewrites its entry in place: every entry
      keeps its position and key, and every other entry is untouched. */
  lemma {:induction false} PutInPlace(d: Dict, k: string, v: Value)
    requires HasKey(d, k)
    ensures |Put(d, k, v)| == |d|
    ensures forall j :: 0 <= j < |d| ==> Put(d, k, v)[j].0 == d[j].0 && (d[j].0 != k ==> Put(d, k, v)[j] == d[j])
    decreases |d|
  {
    if d[0].0 != k {
      assert HasKey(d[1..], k);
      PutInPlace(d[1..], k, v);
      assert forall j :: 0 < j < |d| ==> Put(d, k, v)[j] == Put(d[1..], k, v)[j - 1] && d[j] == d[1..][j - 1];
    }
  }

  /** Looking up a key in a dict with one more entry in front. */
  lemma LookupCons(p: (string, Value), rest: Dict, k: string)
    ensures Lookup([p] + rest, k) == if p.0 == k then Some(p.1) else Lookup(rest, k)
  {
    assert ([p] + rest)[1..] == rest;
  }

  /** Python's `len(v)`: `None` when `v` has no length (a `TypeError`). */
  function Length(v: Value): (r: Option<nat>)
    ensures r.None? <==> v.VNone? || v.VBool? || v.VInt?
  {
    match v
    case VStr(s) => Some(|s|)
    case VList(items) => Some(|items|)
    case VTuple(elems) => Some(|elems|)
    case VDict(entries) => Some(|entries|)
    case _ => None
  }

  /** Python's truth test on a sized value is its length test: a string,
      list, tuple or dict is truthy exactly when it is non-empty. */
  lemma TruthyIsNonEmpty(v: Value)
    ensures Length(v).Some? ==> (Truthy(v) <==> Length(v).value > 0)
    ensures v.VNone? ==> !Truthy(v)
  {
  }

  /** Python's `v[i]` for a non-negative integer `i`: `None` when it raises.
      A string yields its one-character substring; a dict raises, because
      its keys are strings and `i` is not one. */
  function IndexAt(v: Value, i: nat): (r: Option<Value>)
    ensures r.Some? ==> Length(v).Some? && i < Length(v).value
  {
    match v
    case VStr(s) => if i < |s| then Some(VStr([s[i]])) else None
    case VList(items) => if i < |items| then Some(items[i]) else None
    case VTuple(elems) => if i < |elems| then Some(elems[i]) else None
    case _ => None
  }

  /** The values `for x in v` visits, in order: `None` when `v` is not
      iterable. A string yields its characters, a dict its keys. */
  function Iterate(v: Value): (r: Option<seq<Value>>)
    ensures r.Some? <==> Length(v).Some?
    ensures r.Some? ==> |r.value| == Length(v).value
  {
    match v
    case VStr(s) => Some(seq(|s|, k requires 0 <= k < |s| => VStr([s[k]])))
    case VList(items) => Some(items)
    case VTuple(elems) => Some(elems)
    case VDict(entries) => Some(seq(|entries|, k requires 0 <= k < |entries| => VStr(entries[k].0)))
    case _ => None
  }

  /** The elements `v[0], ..., v[len(v) - 1]` for a loop that subscripts
      every position below `len(v)`: it raises unless `v` is a string, a
      list, a tuple or an empty dict (a non-empty dict raises at `v[0]`). */
  function Subscripts(v: Value): (r: Outcome<seq<Value>>)
    ensures r.Done? ==> Length(v) == Some(|r.value|)
    ensures r.Done? ==> forall j :: 0 <= j < |r.value| ==> IndexAt(v, j) == Some(r.value[j])
    ensures r.Raised? ==> Length(v).None? || IndexAt(v, 0).None?
  {
    match v
    case VDict(entries) => if |entries| == 0 then Done([]) else Raised
    case VNone => Raised
    case VBool(_) => Raised
    case VInt(_) => Raised
    case _ => Done(Iterate(v).value)
  }

  /** Python's `key in v` for a non-empty string `key`: a key of a dict, an
      element of a list or tuple, a substring of a string; `Raised` for a
      value that supports no membership test. */
  function Contains(v: Value, key: string): (r: Outcome<bool>)
    requires |key| > 0
    ensures r.Raised? <==> v.VNone? || v.VBool? || v.VInt?
    ensures v.VDict? ==> r == Done(HasKey(v.entries, key))
    ensures v.VStr? ==> r == Done(exists k :: IsAt(v.s, k, key))
  {
    match v
    case VDict(entries) => Done(HasKey(entries, key))
    case VList(items) => Done(VStr(key) in items)
    case VTuple(elems) => Done(VStr(key) in elems)
    case VStr(s) => Done(IndexOf(s, key).Some?)
    case _ => Raised
  }

  /** Python's `v[key]` for a string `key`: a dict's value, `Raised` when the
      key is missing or `v` is not a dict (a list, tuple or string index must
      be an integer). */
  function Item(v: Value, key: string): (r: Outcome<Value>)
    ensures r.Done? <==> v.VDict? && HasKey(v.entries, key)
    ensures r.Done? ==> Lookup(v.entries, key) == Some(r.value)
  {
    if v.VDict? then OrRaise(Lookup(v.entries, key)) else Raised
  }

  /** An item `dict(...)` accepts: an iterable of exactly two elements
      whose first, the key, is a string. */
  predicate IsPair(item: Value) {
    match Iterate(item)
    case Some(kv) => |kv| == 2 && kv[0].VStr?
    case None => false
  }

  function PairKey(item: Value): string
    requires IsPair(item)
  {
    Iterate(item).value[0].s
  }

  function PairValue(item: Value): Value
    requires IsPair(item)
  {
    Iterate(item).value[1]
  }

  /** Python's `dict(v)`: a copy of a dict, or the dict built from an
      iterable of two-element items (key, value), later keys overwriting
      earlier ones. `Raised` for a non-iterable `v`, an item that is not a
      two-element iterable, or a key that is not a string (the model's dicts
      have string keys). */
  function ToDict(v: Value): (r: Outcome<Dict>)
    ensures v.VDict? ==> r == Done(v.entries)
    ensures !v.VDict? ==>
              (r.Done? <==> Iterate(v).Some? && forall j :: 0 <= j < |Iterate(v).value| ==> IsPair(Iterate(v).value[j]))
  {
    if v.VDict? then Done(v.entries)
    else
      match Iterate(v)
      case None => Raised
      case Some(items) => AddPairs([], items)
  }

  /** The pairs of `items` added to `acc` in order; it raises exactly when
      some item is not a pair. */
  function AddPairs(acc: Dict, items: seq<Value>): (r: Outcome<Dict>)
    ensures r.Done? <==> forall j :: 0 <= j < |items| ==> IsPair(items[j])
    decreases |items|
  {
    if |items| == 0 then Done(acc)
    else if IsPair(items[0]) then
      assert forall j :: 1 <= j < |items| ==> items[j] == items[1..][j - 1];
      AddPairs(Put(acc, PairKey(items[0]), PairValue(items[0])), items[1..])
    else Raised
  }

  /** A key that no pair names keeps its value from `acc`. */
  lemma {:induction false} AddPairsUntouched(acc: Dict, items: seq<Value>, k: string)
    requires AddPairs(acc, items).Done?
    requires forall j :: 0 <= j < |items| ==> IsPair(items[j]) && PairKey(items[j]) != k
    ensures Lookup(AddPairs(acc, items).value, k) == Lookup(acc, k)
    decreases |items|
  {
    if |items| > 0 {
      var acc' := Put(acc, PairKey(items[0]), PairValue(items[0]));
      assert forall j :: 0 <= j < |items| - 1 ==> items[1..][j] == items[j + 1];
      AddPairsUntouched(acc', items[1..], k);
    }
  }

  /** Later keys overwrite earlier ones: the key of pair `j`, named by no
      later pair, maps to pair `j`'s value. */
  lemma {:induction false} AddPairsLastWins(acc: Dict, items: seq<Value>, j: nat)
    requires AddPairs(acc, items).Done?
    requires j < |items|
    requires forall i :: 0 <= i < |items| ==> IsPair(items[i])
    requires forall i :: j < i < |items| ==> PairKey(items[i]) != PairKey(items[j])
    ensures Lookup(AddPairs(acc, items).value, PairKey(items[j])) == Some(PairValue(items[j]))
    decreases |items|
  {
    var acc' := Put(acc, PairKey(items[0]), PairValue(items[0]));
    assert forall i :: 0 <= i < |items| - 1 ==> items[1..][i] == items[i + 1];
    if j == 0 {
      AddPairsUntouched(acc', items[1..], PairKey(items[0]));
    } else {
      AddPairsLastWins(acc', items[1..], j - 1);
    }
  }

  /** `dict(v)` of an iterable of pairs: the key of pair `j`, named by no
      later pair, maps to pair `j`'s value, and a key no pair names is
      missing. */
  lemma ToDictOfPairs(v: Value, j: nat, k: string)
    requires !v.VDict? && ToDict(v).Done?
    requires j < |Iterate(v).value|
    requires forall i :: j < i < |Iterate(v).value| ==> PairKey(Iterate(v).value[i]) != PairKey(Iterate(v).value[j])
    ensures Lookup(ToDict(v).value, PairKey(Iterate(v).value[j])) == Some(PairValue(Iterate(v).value[j]))
    ensures (forall i :: 0 <= i < |Iterate(v).value| ==> PairKey(Iterate(v).value[i]) != k) ==> !HasKey(ToDict(v).value, k)
  {
    var items := Iterate(v).value;
    AddPairsLastWins([], items, j);
    if forall i :: 0 <= i < |items| ==> PairKey(items[i]) != k {
      AddPairsUntouched([], items, k);
    }
  }

  /** Python's `repr(s)` for a string: single quotes unless the string holds a
      single quote and no double quote; backslash, the quote in use and the
      ASCII control characters are escaped. */
  function ReprStr(s: string): (r: string)
    ensures |r| >= 2 && r[0] == r[|r| - 1]
    ensures r[0] == '"' <==> '\'' in s && '"' !in s
    ensures r[0] == '"' || r[0] == '\''
  {
    var q := if '\'' in s && '"' !in s then '"' else '\'';
    [q] + EscapeAll(s, q) + [q]
  }

  function EscapeAll(s: string, q: char): (r: string)
    ensures |r| >= |s|
    decreases |s|
  {
    if |s| == 0 then [] else Escape(s[0], q) + EscapeAll(s[1..], q)
  }

  function Escape(c: char, q: char): (r: string)
    ensures |r| >= 1
  {
    if c == '\\' then "\\\\"
    else if c == q then ['\\', q]
    else if c == '\t' then "\\t"
    else if c == '\n' then "\\n"
    else if c == '\r' then "\\r"
    else if c < ' ' || c == '\U{007F}' then "\\x" + [HexDigit(c as int / 16), HexDigit(c as int % 16)]
    else [c]
  }

  function HexDigit(n: nat): char
    requires n < 16
  {
    if n < 10 then '0' + n as char else 'a' + (n - 10) as char
  }

  /** A character `repr` writes as itself inside quotes `q`. */
  predicate Plain(c: char, q: char) {
    ' ' <= c && c != '\U{007F}' && c != '\\' && c != q
  }

  lemma {:induction false} EscapeAllPlain(s: string, q: char)
    requires forall k :: 0 <= k < |s| ==> Plain(s[k], q)
    ensures EscapeAll(s, q) == s
    decreases |s|
  {
    if |s| > 0 {
      assert Plain(s[0], q);
      assert forall k :: 0 <= k < |s| - 1 ==> s[1..][k] == s[k + 1];
      EscapeAllPlain(s[1..], q);
      assert s == [s[0]] + s[1..];
    }
  }

  /** A string with no quote, backslash or control character is written
      between single quotes exactly as it is. */
  lemma ReprStrPlain(s: string)
    requires forall k :: 0 <= k < |s| ==> Plain(s[k], '\'') && s[k] != '"'
    ensures ReprStr(s) == "'" + s + "'"
  {
    assert '\'' !in s by {
      forall k | 0 <= k < |s| ensures s[k] != '\'' {
        assert Plain(s[k], '\'');
      }
    }
    EscapeAllPlain(s, '\'');
  }

  function Join(parts: seq<string>, sep: string): string
    decreases |parts|
  {
    if |parts| == 0 then []
    else if |parts| == 1 then parts[0]
    else parts[0] + sep + Join(parts[1..], sep)
  }

  /** Python's `repr(v)`. */
  function Repr(v: Value): (r: string)
    ensures v.VNone? ==> r == "None"
    ensures v.VBool? ==> r == if v.b then "True" else "False"
    ensures v.VStr? ==> |r| >= 2 && (r[0] == '\'' || r[0] == '"') && r[|r| - 1] == r[0]
    ensures v.VList? ==> |r| >= 2 && r[0] == '[' && r[|r| - 1] == ']'
    ensures v.VTuple? ==> |r| >= 2 && r[0] == '(' && r[|r| - 1] == ')'
    ensures v.VDict? ==> |r| >= 2 && r[0] == '{' && r[|r| - 1] == '}'
    ensures v == VList([]) ==> r == "[]"
    ensures v == VTuple([]) ==> r == "()"
    ensures v == VDict([]) ==> r == "{}"
    ensures v.VList? && |v.items| == 1 ==> r == "[" + Repr(v.items[0]) + "]"
    ensures v.VTuple? && |v.elems| == 1 ==> r == "(" + Repr(v.elems[0]) + ",)"
    decreases v
  {
    match v
    case VNone => "None"
    case VBool(b) => if b then "True" else "False"
    case VInt(i) => IntToString(i)
    case VStr(s) => ReprStr(s)
    case VList(items) =>
      "[" + Join(seq(|items|, k requires 0 <= k < |items| => Repr(items[k])), ", ") + "]"
    case VTuple(elems) =>
      if |elems| == 1 then "(" + Repr(elems[0]) + ",)"
      else "(" + Join(seq(|elems|, k requires 0 <= k < |elems| => Repr(elems[k])), ", ") + ")"
    case VDict(entries) =>
      "{" + Join(seq(|entries|, k requires 0 <= k < |entries| =>
                   ReprStr(entries[k].0) + ": " + Repr(entries[k].1)), ", ") + "}"
  }

  /** Python's `str(v)`: a string is itself, anything else its `repr`. */
  function PyStr(v: Value): (r: string)
    ensures v.VStr? ==> r == v.s
    ensures !v.VStr? ==> r == Repr(v)
  {
    if v.VStr? then v.s else Repr(v)
  }
}
