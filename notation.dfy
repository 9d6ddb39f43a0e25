/**
 * The object-notation converter: a walk over a JSON-like value that
 * rewrites every object key with a key rewriter, except that the value
 * under a key whose dotted path is listed in `preserve` is copied as is.
 *
 * ToNotation is the traversal as a function over the value tree;
 * Transform is the same traversal written the way the utility builds an
 * object, by assigning converted entries to a fresh record in a loop, and
 * is proved to compute ToNotation.
 */
module ObjectNotation {
  import opened Record
  import opened KeyCase

  /** Leaves of a value; numbers are opaque to the converter. */
  datatype Primitive = Str(s: string) | Num(n: int) | Bool(b: bool) | Null | Undefined

  /** An acyclic JSON-like value; an object's entries are kept in key order. */
  datatype Value =
    | Prim(p: Primitive)
    | Arr(elems: seq<Value>)
    | Obj(fields: seq<(string, Value)>)

  /** The dotted path of a key below the path of its parent object. */
  function ChildPath(parent: string, key: string): (path: string) {
    if parent != "" then parent + "." + key else key
  }

  /**
   * The converter at one node. Array elements are converted under the
   * array's own path; object entries under the path of their original key.
   */
  function ToNotation(v: Value, conv: string -> string, parent: string, preserve: seq<string>): (r: Value)
    decreases v, 1
  {
    match v
    case Arr(elems) =>
      Arr(seq(|elems|, i requires 0 <= i < |elems| => ToNotation(elems[i], conv, parent, preserve)))
    case Obj(fields) =>
      Obj(Assemble(Entries(fields, conv, parent, preserve)))
    case Prim(_) =>
      v
  }

  /**
   * The entries assigned, in source order, to the converted object: each key
   * rewritten, each value copied when its path is preserved and converted
   * otherwise.
   */
  function Entries(fields: seq<(string, Value)>, conv: string -> string, parent: string, preserve: seq<string>)
    : (es: seq<(string, Value)>)
    decreases Obj(fields), 0
  {
    seq(|fields|, i requires 0 <= i < |fields| =>
      var path := ChildPath(parent, fields[i].0);
      (conv(fields[i].0),
       if path in preserve then fields[i].1 else ToNotation(fields[i].1, conv, path, preserve)))
  }

  /** camelCase version of a value whose keys are in snake_case. */
  function ToCamelCase(v: Value, preserve: seq<string>): (r: Value) {
    ToNotation(v, CamelKey, "", preserve)
  }

  /** snake_case version of a value whose keys are in camelCase. */
  function ToSnakeCase(v: Value, preserve: seq<string>): (r: Value) {
    ToNotation(v, SnakeKey, "", preserve)
  }

  /**
   * The converter as the utility runs it: arrays are mapped element by
   * element, objects are built by assigning each converted entry to a fresh
   * record in a loop over the source keys.
   */
  method Transform(v: Value, conv: string -> string, parent: string, preserve: seq<string>) returns (r: Value)
    ensures r == ToNotation(v, conv, parent, preserve)
    decreases v
  {
    match v {
      case Arr(elems) =>
        var items: seq<Value> := [];
        for i := 0 to |elems|
          invariant |items| == i
          invariant forall j :: 0 <= j < i ==> items[j] == ToNotation(elems[j], conv, parent, preserve)
        {
          var item := Transform(elems[i], conv, parent, preserve);
          items := items + [item];
        }
        r := Arr(items);
      case Obj(fields) =>
        ghost var es := Entries(fields, conv, parent, preserve);
        var result: seq<(string, Value)> := [];
        for i := 0 to |fields|
          invariant result == Assemble(es[..i])
        {
          var key := fields[i].0;
          var convertedKey := conv(key);
          var fullPath := if parent != "" then parent + "." + key else key;
          var value;
          if fullPath in preserve {
            value := fields[i].1;
          } else {
            value := Transform(fields[i].1, conv, fullPath, preserve);
          }
          assert es[..i + 1][..i] == es[..i];
          assert es[i] == (convertedKey, value);
          result := SetField(result, convertedKey, value);
        }
        assert es[..|fields|] == es;
        r := Obj(result);
      case Prim(_) =>
        r := v;
    }
  }
}
