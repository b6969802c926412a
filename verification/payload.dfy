/**
 A provider reply after `json_maybe`: either the stripped text itself or a
 decoded JSON value. Objects keep their members in order, as Python dicts
 do, so iteration order of the price walkers matches the bot.
 */
module Payload {
  import opened Common

  /** A decoded JSON value; a number carries the text `str()` gives it. */
  datatype Val =
    | Null
    | Bool(b: bool)
    | Num(value: real, text: string)
    | Str(s: string)
    | Arr(items: seq<Val>)
    | Obj(fields: seq<(string, Val)>)

  /** Python truthiness of a decoded value. */
  predicate Truthy(v: Val) {
    match v
    case Null => false
    case Bool(b) => b
    case Num(x, _) => x != 0.0
    case Str(s) => |s| > 0
    case Arr(items) => |items| > 0
    case Obj(fields) => |fields| > 0
  }

  /** `a or b`: the first operand when it is truthy, otherwise the second. */
  function Or(a: Val, b: Val): (r: Val)
    ensures Truthy(r) <==> Truthy(a) || Truthy(b)
  {
    if Truthy(a) then a else b
  }

  /**
   `str(v)` for the scalar values the bot renders. Python's repr of a list or
   dict is not modelled: every list renders as one marker, and every dict as
   another.
   */
  function PyStr(v: Val): string {
    match v
    case Null => "None"
    case Bool(b) => if b then "True" else "False"
    case Num(_, t) => t
    case Str(s) => s
    case Arr(_) => "[...]"
    case Obj(_) => "{...}"
  }

  predicate HasKey(fields: seq<(string, Val)>, key: string) {
    exists i :: 0 <= i < |fields| && fields[i].0 == key
  }

  /** `d.get(key)`: the value of the first member named `key`, or None. */
  function Get(fields: seq<(string, Val)>, key: string): (r: Val)
    ensures !HasKey(fields, key) ==> r == Null
    ensures HasKey(fields, key) ==> exists i :: 0 <= i < |fields| && fields[i] == (key, r)
    decreases |fields|
  {
    if |fields| == 0 then Null
    else if fields[0].0 == key then fields[0].1
    else
      assert HasKey(fields, key) ==> HasKey(fields[1..], key) by {
        if HasKey(fields, key) {
          var i :| 0 <= i < |fields| && fields[i].0 == key;
          assert fields[1..][i - 1].0 == key;
        }
      }
      var r := Get(fields[1..], key);
      assert HasKey(fields[1..], key) ==> exists i :: 0 <= i < |fields| && fields[i] == (key, r) by {
        if HasKey(fields[1..], key) {
          var j :| 0 <= j < |fields[1..]| && fields[1..][j] == (key, r);
          assert fields[j + 1] == (key, r);
        }
      }
      r
  }

  /** `d.get(key, default)`. */
  function GetOr(fields: seq<(string, Val)>, key: string, default: Val): (r: Val)
    ensures !HasKey(fields, key) ==> r == default
    ensures HasKey(fields, key) ==> r == Get(fields, key)
  {
    if HasKey(fields, key) then Get(fields, key) else default
  }

  /** `isinstance(v, (dict, list))`. */
  predicate IsContainer(v: Val) {
    v.Arr? || v.Obj?
  }
}
