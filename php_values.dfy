/** The slice of PHP's value model that the response envelope builder
    depends on: the kinds of value a caller may pass, the boolean
    conversion, the loose comparison `== null` and `is_string`, and
    ordered arrays with key lookup. */
module PhpValues {
  import opened Wrappers

  /** An array key: PHP keys are integers or strings (PHP's casting of
      numeric string keys to integers is not modelled). */
  datatype Key = IntKey(i: int) | StrKey(s: string)

  /** A PHP value. Floats are modelled as reals (no NaN, no infinities);
      an object is opaque and identified only by its class name. An array
      is PHP's ordered map: its entries in insertion order. */
  datatype Value =
    | Null
    | Bool(b: bool)
    | Int(i: int)
    | Float(r: real)
    | Str(s: string)
    | Arr(entries: seq<(Key, Value)>)
    | Obj(cls: string)

  /** PHP's `gettype($v)`: the name of the value's type. */
  function TypeName(v: Value): string {
    match v
    case Null => "NULL"
    case Bool(_) => "boolean"
    case Int(_) => "integer"
    case Float(_) => "double"
    case Str(_) => "string"
    case Arr(_) => "array"
    case Obj(_) => "object"
  }

  /** PHP's `is_string($v)`: the value's type is "string". */
  predicate IsString(v: Value)
    ensures IsString(v) <==> TypeName(v) == "string"
  {
    v.Str?
  }

  /** PHP's conversion to bool: false, 0, 0.0, "", "0", the empty array and
      null are false; everything else, every object included, is true. */
  predicate ToBool(v: Value) {
    match v
    case Null => false
    case Bool(b) => b
    case Int(i) => i != 0
    case Float(r) => r != 0.0
    case Str(s) => s != "" && s != "0"
    case Arr(entries) => entries != []
    case Obj(_) => true
  }

  /** How PHP compares a value with a null operand under `==`: against a
      string, null is converted to "" and the two strings are compared;
      against anything else, both sides are converted to bool. */
  predicate ComparedWithNull(v: Value) {
    if v.Str? then v.s == "" else ToBool(v) == ToBool(Null)
  }

  /** PHP's loose comparison `$v == null`, written out case by case. */
  predicate LooseEqNull(v: Value)
    ensures LooseEqNull(v) <==> ComparedWithNull(v)
  {
    match v
    case Null => true
    case Bool(b) => !b
    case Int(i) => i == 0
    case Float(r) => r == 0.0
    case Str(s) => s == ""
    case Arr(entries) => entries == []
    case Obj(_) => false
  }

  /** Loosely null means falsy, with the single exception of "0", which is
      falsy but differs from null. */
  lemma LooseEqNullIsFalsyButNotZeroString(v: Value)
    ensures LooseEqNull(v) <==> !ToBool(v) && v != Str("0")
  {
  }

  /** The only string that is loosely equal to null is the empty string. */
  lemma LooselyNullString(v: Value)
    ensures IsString(v) && LooseEqNull(v) <==> v == Str("")
  {
  }

  /** The keys of an array, in order. */
  function KeyList(entries: seq<(Key, Value)>): (ks: seq<Key>)
    ensures |ks| == |entries|
    ensures forall i :: 0 <= i < |entries| ==> ks[i] == entries[i].0
  {
    if entries == [] then [] else [entries[0].0] + KeyList(entries[1..])
  }

  /** Lookup by key, as a client reading the envelope array back does:
      the value stored under the first entry with key `k`, or None when no
      entry has that key. */
  function Lookup(entries: seq<(Key, Value)>, k: Key): (r: Option<Value>)
    ensures r.None? <==> forall i :: 0 <= i < |entries| ==> entries[i].0 != k
  {
    if entries == [] then None
    else if entries[0].0 == k then Some(entries[0].1)
    else Lookup(entries[1..], k)
  }

  /** The value under the first entry with key `k` is what lookup finds. */
  lemma {:induction false} LookupFirst(entries: seq<(Key, Value)>, i: nat, k: Key)
    requires i < |entries| && entries[i].0 == k
    requires forall j :: 0 <= j < i ==> entries[j].0 != k
    ensures Lookup(entries, k) == Some(entries[i].1)
  {
    if i > 0 {
      LookupFirst(entries[1..], i - 1, k);
    }
  }

  /** Conversely, what lookup finds is stored under the first entry with key
      `k`. */
  lemma {:induction false} LookupFound(entries: seq<(Key, Value)>, k: Key)
    requires Lookup(entries, k).Some?
    ensures exists i :: 0 <= i < |entries| && entries[i] == (k, Lookup(entries, k).value)
                        && forall j :: 0 <= j < i ==> entries[j].0 != k
  {
    if entries[0].0 != k {
      LookupFound(entries[1..], k);
      var i :| 0 <= i < |entries| - 1 && entries[1..][i] == (k, Lookup(entries, k).value)
               && forall j :: 0 <= j < i ==> entries[1..][j].0 != k;
      assert entries[i + 1] == (k, Lookup(entries, k).value);
    }
  }
}
