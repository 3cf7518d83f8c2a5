/**
  Json: a JSON text as `json.loads` hands it to the bridge. Python keeps
  integers and floats apart, so this datatype does too; an object is the
  decoded dict's items in insertion order (json.loads has already merged
  duplicate keys, so each key occurs once).
 */
module Json {
  import opened Wrappers
  import opened Bytes

  /**
    A Python float as the encoder sees it: `Single(bits)` is the IEEE-754
    binary32 pattern `struct.pack('>f', x)` packs after rounding x to single
    precision; `Overflow` is a finite double beyond binary32 range, for which
    that call raises OverflowError.
   */
  datatype Float = Single(bits: uint32) | Overflow

  datatype Json =
    | JNull
    | JBool(b: bool)
    | JInt(i: int)
    | JFloat(f: Float)
    | JStr(s: string)
    | JArr(items: seq<Json>)
    // A decoded dict: its items in insertion order. json.loads keeps the
    // last value of a repeated key, so the items of a decoded dict satisfy
    // UniqueKeys; Get is exact on such a list (GetUnique).
    | JObj(fields: seq<(string, Json)>)

  /** No key occurs twice among the items. */
  predicate UniqueKeys(fields: seq<(string, Json)>) {
    forall i, j :: 0 <= i < j < |fields| ==> fields[i].0 != fields[j].0
  }

  /** `key in d` and `d[key]` together: the value stored under key, or None. */
  function Get(fields: seq<(string, Json)>, key: string): (r: Option<Json>)
    ensures r.Some? <==> exists i :: 0 <= i < |fields| && fields[i].0 == key
    ensures r.Some? ==> exists i :: 0 <= i < |fields| && fields[i] == (key, r.value)
  {
    if fields == [] then None
    else if fields[0].0 == key then Some(fields[0].1)
    else
      var r := Get(fields[1..], key);
      assert forall i :: 1 <= i < |fields| ==> fields[i] == fields[1..][i - 1];
      r
  }

  /** Among items with distinct keys, the value under a key is the one stored beside it. */
  lemma {:induction false} GetUnique(fields: seq<(string, Json)>, k: nat)
    requires UniqueKeys(fields) && k < |fields|
    ensures Get(fields, fields[k].0) == Some(fields[k].1)
  {
    if k > 0 {
      assert fields[0].0 != fields[k].0;
      assert fields[1..][k - 1] == fields[k];
      assert UniqueKeys(fields[1..]) by {
        forall i, j | 0 <= i < j < |fields[1..]|
          ensures fields[1..][i].0 != fields[1..][j].0
        {
          assert fields[1..][i] == fields[i + 1] && fields[1..][j] == fields[j + 1];
        }
      }
      GetUnique(fields[1..], k - 1);
    }
  }

  predicate HasKey(fields: seq<(string, Json)>, key: string) {
    Get(fields, key).Some?
  }

  /** `d.get(key, default)`. */
  function GetOr(fields: seq<(string, Json)>, key: string, default: Json): (r: Json)
    ensures HasKey(fields, key) ==> Get(fields, key) == Some(r)
    ensures !HasKey(fields, key) ==> r == default
  {
    match Get(fields, key)
    case Some(v) => v
    case None => default
  }
}
