/**
 * What the object-notation converter guarantees: how it treats primitives,
 * arrays and objects, which paths preservation applies to, and the
 * round trips between the camelCase and snake_case conversions.
 */
module NotationProperties {
  import opened Record
  import opened KeyCase
  import opened ObjectNotation

  /** No object anywhere in the value holds a key twice, as for any JavaScript object. */
  predicate WellFormed(v: Value)
    decreases v
  {
    match v
    case Prim(_) => true
    case Arr(elems) => forall i :: 0 <= i < |elems| ==> WellFormed(elems[i])
    case Obj(fields) =>
      Distinct(Keys(fields)) && forall i :: 0 <= i < |fields| ==> WellFormed(fields[i].1)
  }

  /** Every object key at every depth satisfies P. */
  predicate AllKeys(v: Value, P: string -> bool)
    decreases v
  {
    match v
    case Prim(_) => true
    case Arr(elems) => forall i :: 0 <= i < |elems| ==> AllKeys(elems[i], P)
    case Obj(fields) => forall i :: 0 <= i < |fields| ==> P(fields[i].0) && AllKeys(fields[i].1, P)
  }

  // ---------------------------------------------------------------------
  // Primitives, arrays and single objects
  // ---------------------------------------------------------------------

  /** Primitives, null and undefined come back unchanged; string contents are never rewritten. */
  lemma PrimitivesUnchanged(p: Primitive, preserve: seq<string>)
    ensures ToCamelCase(Prim(p), preserve) == Prim(p)
    ensures ToSnakeCase(Prim(p), preserve) == Prim(p)
  {
  }

  /**
   * An array keeps its length and order, and each element is converted
   * under the array's own path: indices never enter a path.
   */
  lemma ArrayTransparent(elems: seq<Value>, conv: string -> string, parent: string, preserve: seq<string>)
    ensures ToNotation(Arr(elems), conv, parent, preserve).Arr?
    ensures |ToNotation(Arr(elems), conv, parent, preserve).elems| == |elems|
    ensures forall i :: 0 <= i < |elems| ==>
      ToNotation(Arr(elems), conv, parent, preserve).elems[i] == ToNotation(elems[i], conv, parent, preserve)
  {
  }

  /**
   * The keys of a converted object: no key twice, exactly the converted
   * source keys, each standing where its first source key stood.
   */
  lemma ObjectKeys(fields: seq<(string, Value)>, conv: string -> string, parent: string, preserve: seq<string>)
    ensures ToNotation(Obj(fields), conv, parent, preserve).Obj?
    ensures Distinct(Keys(ToNotation(Obj(fields), conv, parent, preserve).fields))
    ensures forall k :: k in Keys(ToNotation(Obj(fields), conv, parent, preserve).fields) <==>
      exists i :: 0 <= i < |fields| && conv(fields[i].0) == k
    ensures InFirstOccurrenceOrder(Keys(ToNotation(Obj(fields), conv, parent, preserve).fields),
                                   Keys(Entries(fields, conv, parent, preserve)))
  {
    var es := Entries(fields, conv, parent, preserve);
    AssembleKeys(es);
    AssembleOrder(es);
    forall k ensures k in Keys(es) <==> exists i :: 0 <= i < |fields| && conv(fields[i].0) == k {
      if k in Keys(es) {
        var i := FirstIndex(Keys(es), k);
        assert conv(fields[i].0) == k;
      }
      if exists i :: 0 <= i < |fields| && conv(fields[i].0) == k {
        var i :| 0 <= i < |fields| && conv(fields[i].0) == k;
        assert Keys(es)[i] == k;
      }
    }
  }

  /**
   * The value under a converted key comes from the last source key that
   * converts to it: copied as is when that key's path is preserved, and
   * converted under that path otherwise.
   */
  lemma ObjectLastWins(fields: seq<(string, Value)>, conv: string -> string, parent: string, preserve: seq<string>, j: nat)
    requires j < |fields|
    requires forall i :: j < i < |fields| ==> conv(fields[i].0) != conv(fields[j].0)
    ensures Lookup(ToNotation(Obj(fields), conv, parent, preserve).fields, conv(fields[j].0)) ==
      Some(if ChildPath(parent, fields[j].0) in preserve then fields[j].1
           else ToNotation(fields[j].1, conv, ChildPath(parent, fields[j].0), preserve))
  {
    var es := Entries(fields, conv, parent, preserve);
    var k := conv(fields[j].0);
    assert es[j].0 == k;
    AssembleLookup(es, k);
    LastValueAt(es, j);
  }

  /** A converted value never holds a key twice, given that the input value does not. */
  lemma {:induction false} ToNotationWellFormed(v: Value, conv: string -> string, parent: string, preserve: seq<string>)
    requires WellFormed(v)
    ensures WellFormed(ToNotation(v, conv, parent, preserve))
    decreases v
  {
    match v
    case Prim(_) =>
    case Arr(elems) =>
      forall i | 0 <= i < |elems| ensures WellFormed(ToNotation(elems[i], conv, parent, preserve)) {
        ToNotationWellFormed(elems[i], conv, parent, preserve);
      }
    case Obj(fields) =>
      var es := Entries(fields, conv, parent, preserve);
      var r := Assemble(es);
      AssembleEntriesFrom(es);
      AssembleKeys(es);
      forall i | 0 <= i < |r| ensures WellFormed(r[i].1) {
        assert r[i] in es;
        var j :| 0 <= j < |es| && es[j] == r[i];
        ToNotationWellFormed(fields[j].1, conv, ChildPath(parent, fields[j].0), preserve);
      }
  }

  // ---------------------------------------------------------------------
  // Preservation is decided by the full path of original keys
  // ---------------------------------------------------------------------

  /** The dot-join of a sequence of keys. */
  function DotJoin(ks: seq<string>): (path: string) {
    if |ks| == 0 then ""
    else if |ks| == 1 then ks[0]
    else DotJoin(ks[..|ks| - 1]) + "." + ks[|ks| - 1]
  }

  /**
   * Reference converter that carries the sequence of original keys from the
   * root instead of a path string, and preserves a value exactly when the
   * dot-join of that sequence is listed.
   */
  function ByKeyPath(v: Value, conv: string -> string, ks: seq<string>, preserve: seq<string>): (r: Value)
    decreases v, 1
  {
    match v
    case Arr(elems) =>
      Arr(seq(|elems|, i requires 0 <= i < |elems| => ByKeyPath(elems[i], conv, ks, preserve)))
    case Obj(fields) =>
      Obj(Assemble(ByKeyPathEntries(fields, conv, ks, preserve)))
    case Prim(_) =>
      v
  }

  function ByKeyPathEntries(fields: seq<(string, Value)>, conv: string -> string, ks: seq<string>, preserve: seq<string>)
    : (rs: seq<(string, Value)>)
    decreases Obj(fields), 0
  {
    seq(|fields|, i requires 0 <= i < |fields| =>
      (conv(fields[i].0),
       if DotJoin(ks + [fields[i].0]) in preserve then fields[i].1
       else ByKeyPath(fields[i].1, conv, ks + [fields[i].0], preserve)))
  }

  /** The root object holds no empty key (looking through arrays). */
  predicate NoEmptyRootKey(v: Value)
    decreases v
  {
    match v
    case Prim(_) => true
    case Arr(elems) => forall i :: 0 <= i < |elems| ==> NoEmptyRootKey(elems[i])
    case Obj(fields) => forall i :: 0 <= i < |fields| ==> fields[i].0 != ""
  }

  lemma {:induction false} DotJoinNonEmpty(ks: seq<string>)
    requires |ks| > 0 && ks[0] != ""
    ensures DotJoin(ks) != ""
  {
    if |ks| > 1 {
      DotJoinNonEmpty(ks[..|ks| - 1]);
    }
  }

  lemma ChildPathJoin(ks: seq<string>, key: string)
    requires ks == [] || ks[0] != ""
    ensures ChildPath(DotJoin(ks), key) == DotJoin(ks + [key])
  {
    if ks != [] {
      DotJoinNonEmpty(ks);
      assert (ks + [key])[..|ks|] == ks;
    }
  }

  /**
   * The path the converter tests against the preserve list is the dot-join
   * of the original keys from the root to the entry, array levels skipped,
   * as long as the root key on that path is not the empty string.
   */
  lemma {:induction false} PathIsDotJoin(v: Value, conv: string -> string, ks: seq<string>, preserve: seq<string>)
    requires if ks == [] then NoEmptyRootKey(v) else ks[0] != ""
    ensures ToNotation(v, conv, DotJoin(ks), preserve) == ByKeyPath(v, conv, ks, preserve)
    decreases v
  {
    match v
    case Prim(_) =>
    case Arr(elems) =>
      forall i | 0 <= i < |elems|
        ensures ToNotation(elems[i], conv, DotJoin(ks), preserve) == ByKeyPath(elems[i], conv, ks, preserve)
      {
        PathIsDotJoin(elems[i], conv, ks, preserve);
      }
    case Obj(fields) =>
      var es := Entries(fields, conv, DotJoin(ks), preserve);
      var rs := ByKeyPathEntries(fields, conv, ks, preserve);
      forall i | 0 <= i < |fields| ensures es[i] == rs[i] {
        var ks' := ks + [fields[i].0];
        ChildPathJoin(ks, fields[i].0);
        assert ks'[0] != "";
        PathIsDotJoin(fields[i].1, conv, ks', preserve);
      }
      assert es == rs;
  }

  /**
   * Below an empty root key the path is not the dot-join: the nested key `a`
   * gets the bare path "a" where the dot-join is ".a", so listing "a"
   * preserves the value under it.
   */
  lemma EmptyRootKeyPath(conv: string -> string, x: Value)
    ensures ChildPath(ChildPath("", ""), "a") == "a"
    ensures DotJoin(["", "a"]) == ".a"
    ensures ToNotation(Obj([("", Obj([("a", x)]))]), conv, "", ["a"]) == Obj([(conv(""), Obj([(conv("a"), x)]))])
  {
    var inner := [("a", x)];
    var ei := Entries(inner, conv, "", ["a"]);
    assert ei == [(conv("a"), x)];
    assert Assemble(ei) == SetField([], conv("a"), x);
    var outer := [("", Obj(inner))];
    var eo := Entries(outer, conv, "", ["a"]);
    assert ChildPath("", "") == "" && "" !in ["a"];
    assert ToNotation(Obj(inner), conv, "", ["a"]) == Obj(Assemble(ei));
    assert eo == [(conv(""), Obj(Assemble(ei)))];
    assert Assemble(eo) == SetField([], conv(""), Obj(Assemble(ei)));
  }

  // ---------------------------------------------------------------------
  // With nothing preserved, every key at every depth is converted
  // ---------------------------------------------------------------------

  /** Reference rewrite of every object key at every depth, without paths. */
  function MapKeys(v: Value, f: string -> string): (r: Value)
    decreases v, 1
  {
    match v
    case Arr(elems) => Arr(seq(|elems|, i requires 0 <= i < |elems| => MapKeys(elems[i], f)))
    case Obj(fields) => Obj(Assemble(MapKeysEntries(fields, f)))
    case Prim(_) => v
  }

  function MapKeysEntries(fields: seq<(string, Value)>, f: string -> string): (ms: seq<(string, Value)>)
    decreases Obj(fields), 0
  {
    seq(|fields|, i requires 0 <= i < |fields| => (f(fields[i].0), MapKeys(fields[i].1, f)))
  }

  /** With an empty preserve list the converter rewrites every key, including keys inside arrays. */
  lemma {:induction false} EmptyPreserveMapsKeys(v: Value, conv: string -> string, parent: string)
    ensures ToNotation(v, conv, parent, []) == MapKeys(v, conv)
    decreases v
  {
    match v
    case Prim(_) =>
    case Arr(elems) =>
      forall i | 0 <= i < |elems| ensures ToNotation(elems[i], conv, parent, []) == MapKeys(elems[i], conv) {
        EmptyPreserveMapsKeys(elems[i], conv, parent);
      }
    case Obj(fields) =>
      var es := Entries(fields, conv, parent, []);
      var ms := MapKeysEntries(fields, conv);
      forall i | 0 <= i < |fields| ensures es[i] == ms[i] {
        EmptyPreserveMapsKeys(fields[i].1, conv, ChildPath(parent, fields[i].0));
      }
      assert es == ms;
  }

  /** A rewritten value never holds a key twice. */
  lemma {:induction false} MapKeysWellFormed(v: Value, f: string -> string)
    ensures WellFormed(MapKeys(v, f))
    decreases v
  {
    match v
    case Prim(_) =>
    case Arr(elems) =>
      forall i | 0 <= i < |elems| ensures WellFormed(MapKeys(elems[i], f)) {
        MapKeysWellFormed(elems[i], f);
      }
    case Obj(fields) =>
      var ms := MapKeysEntries(fields, f);
      var r := Assemble(ms);
      AssembleEntriesFrom(ms);
      AssembleKeys(ms);
      forall i | 0 <= i < |r| ensures WellFormed(r[i].1) {
        assert r[i] in ms;
        var j :| 0 <= j < |ms| && ms[j] == r[i];
        MapKeysWellFormed(fields[j].1, f);
      }
  }

  /** Every key of a rewritten value is an output of the rewriter. */
  lemma {:induction false} MapKeysAllKeys(v: Value, f: string -> string, Q: string -> bool)
    requires forall k :: Q(f(k))
    ensures AllKeys(MapKeys(v, f), Q)
    decreases v
  {
    match v
    case Prim(_) =>
    case Arr(elems) =>
      forall i | 0 <= i < |elems| ensures AllKeys(MapKeys(elems[i], f), Q) {
        MapKeysAllKeys(elems[i], f, Q);
      }
    case Obj(fields) =>
      var ms := MapKeysEntries(fields, f);
      var r := Assemble(ms);
      AssembleEntriesFrom(ms);
      forall i | 0 <= i < |r| ensures Q(r[i].0) && AllKeys(r[i].1, Q) {
        assert r[i] in ms;
        var j :| 0 <= j < |ms| && ms[j] == r[i];
        MapKeysAllKeys(fields[j].1, f, Q);
      }
  }

  /** Rewriting with g after f restores every key on which g undoes f. */
  lemma {:induction false} MapKeysInverse(v: Value, f: string -> string, g: string -> string, P: string -> bool)
    requires WellFormed(v) && AllKeys(v, P)
    requires forall k :: P(k) ==> g(f(k)) == k
    ensures MapKeys(MapKeys(v, f), g) == v
    decreases v
  {
    match v
    case Prim(_) =>
    case Arr(elems) =>
      var once := MapKeys(v, f);
      forall i | 0 <= i < |elems| ensures MapKeys(once.elems[i], g) == elems[i] {
        MapKeysInverse(elems[i], f, g, P);
      }
      assert MapKeys(once, g).elems == elems;
    case Obj(fields) =>
      var e1 := MapKeysEntries(fields, f);
      InvertibleKeysStayDistinct(fields, f, g, P);
      AssembleDistinct(e1);
      assert MapKeys(v, f) == Obj(e1);
      var e2 := MapKeysEntries(e1, g);
      forall i | 0 <= i < |fields| ensures e2[i] == fields[i] {
        MapKeysInverse(fields[i].1, f, g, P);
      }
      assert e2 == fields;
      AssembleDistinct(fields);
  }

  /** A rewriter that g undoes on the keys maps different keys to different keys. */
  lemma InvertibleKeysStayDistinct(fields: seq<(string, Value)>, f: string -> string, g: string -> string, P: string -> bool)
    requires Distinct(Keys(fields))
    requires forall i :: 0 <= i < |fields| ==> P(fields[i].0)
    requires forall k :: P(k) ==> g(f(k)) == k
    ensures Distinct(Keys(MapKeysEntries(fields, f)))
  {
    var ks := Keys(MapKeysEntries(fields, f));
    forall i, j | 0 <= i < j < |ks| ensures ks[i] != ks[j] {
      assert Keys(fields)[i] != Keys(fields)[j];
      assert g(f(fields[i].0)) == fields[i].0 && g(f(fields[j].0)) == fields[j].0;
    }
  }

  /** Rewriting with f keeps a value whose keys f already leaves alone. */
  lemma {:induction false} MapKeysFixed(v: Value, f: string -> string, P: string -> bool)
    requires WellFormed(v) && AllKeys(v, P)
    requires forall k :: P(k) ==> f(k) == k
    ensures MapKeys(v, f) == v
    decreases v
  {
    match v
    case Prim(_) =>
    case Arr(elems) =>
      forall i | 0 <= i < |elems| ensures MapKeys(elems[i], f) == elems[i] {
        MapKeysFixed(elems[i], f, P);
      }
    case Obj(fields) =>
      var ms := MapKeysEntries(fields, f);
      forall i | 0 <= i < |fields| ensures ms[i] == fields[i] {
        MapKeysFixed(fields[i].1, f, P);
      }
      assert ms == fields;
      AssembleDistinct(fields);
  }

  /**
   * Converting with a rewriter that keeps every key gives back the value,
   * whatever is preserved.
   */
  lemma {:induction false} IdentityRule(v: Value, conv: string -> string, parent: string, preserve: seq<string>)
    requires WellFormed(v)
    requires forall k :: conv(k) == k
    ensures ToNotation(v, conv, parent, preserve) == v
    decreases v
  {
    match v
    case Prim(_) =>
    case Arr(elems) =>
      forall i | 0 <= i < |elems| ensures ToNotation(elems[i], conv, parent, preserve) == elems[i] {
        IdentityRule(elems[i], conv, parent, preserve);
      }
    case Obj(fields) =>
      var es := Entries(fields, conv, parent, preserve);
      forall i | 0 <= i < |fields| ensures es[i] == fields[i] {
        IdentityRule(fields[i].1, conv, ChildPath(parent, fields[i].0), preserve);
      }
      assert es == fields;
      AssembleDistinct(fields);
  }

  // ---------------------------------------------------------------------
  // The two entry points
  // ---------------------------------------------------------------------

  /** Without preserved keys, toSnakeCase leaves no uppercase letter in any key. */
  lemma SnakeCaseKeysHaveNoUpper(v: Value)
    ensures AllKeys(ToSnakeCase(v, []), NoUpper)
  {
    EmptyPreserveMapsKeys(v, SnakeKey, "");
    MapKeysAllKeys(v, SnakeKey, NoUpper);
  }

  /** Without preserved keys, toCamelCase leaves no `_` followed by a lowercase letter in any key. */
  lemma CamelCaseKeysHaveNoBreak(v: Value)
    ensures AllKeys(ToCamelCase(v, []), NoBreak)
  {
    EmptyPreserveMapsKeys(v, CamelKey, "");
    forall k ensures NoBreak(CamelKey(k)) {
      CamelKeyHasNoBreak(k);
    }
    MapKeysAllKeys(v, CamelKey, NoBreak);
  }

  /** toSnakeCase undoes toCamelCase on values whose keys hold no uppercase letter. */
  lemma SnakeCaseUndoesCamelCase(v: Value)
    requires WellFormed(v) && AllKeys(v, NoUpper)
    ensures ToSnakeCase(ToCamelCase(v, []), []) == v
  {
    EmptyPreserveMapsKeys(v, CamelKey, "");
    EmptyPreserveMapsKeys(MapKeys(v, CamelKey), SnakeKey, "");
    forall k | NoUpper(k) ensures SnakeKey(CamelKey(k)) == k {
      SnakeKeyUndoesCamelKey(k);
    }
    MapKeysInverse(v, CamelKey, SnakeKey, NoUpper);
  }

  /** toCamelCase undoes toSnakeCase on values whose keys hold no `_` followed by a lowercase letter. */
  lemma CamelCaseUndoesSnakeCase(v: Value)
    requires WellFormed(v) && AllKeys(v, NoBreak)
    ensures ToCamelCase(ToSnakeCase(v, []), []) == v
  {
    EmptyPreserveMapsKeys(v, SnakeKey, "");
    EmptyPreserveMapsKeys(MapKeys(v, SnakeKey), CamelKey, "");
    forall k | NoBreak(k) ensures CamelKey(SnakeKey(k)) == k {
      CamelKeyUndoesSnakeKey(k);
    }
    MapKeysInverse(v, SnakeKey, CamelKey, NoBreak);
  }

  /** Without preserved keys, converting to snake_case twice changes nothing more. */
  lemma SnakeCaseIdempotent(v: Value)
    ensures ToSnakeCase(ToSnakeCase(v, []), []) == ToSnakeCase(v, [])
  {
    var once := ToSnakeCase(v, []);
    EmptyPreserveMapsKeys(v, SnakeKey, "");
    EmptyPreserveMapsKeys(once, SnakeKey, "");
    MapKeysWellFormed(v, SnakeKey);
    SnakeCaseKeysHaveNoUpper(v);
    forall k | NoUpper(k) ensures SnakeKey(k) == k {
      SnakeKeyIdentity(k);
    }
    MapKeysFixed(once, SnakeKey, NoUpper);
  }

  /** Without preserved keys, converting to camelCase twice changes nothing more. */
  lemma CamelCaseIdempotent(v: Value)
    ensures ToCamelCase(ToCamelCase(v, []), []) == ToCamelCase(v, [])
  {
    var once := ToCamelCase(v, []);
    EmptyPreserveMapsKeys(v, CamelKey, "");
    EmptyPreserveMapsKeys(once, CamelKey, "");
    MapKeysWellFormed(v, CamelKey);
    CamelCaseKeysHaveNoBreak(v);
    forall k | NoBreak(k) ensures CamelKey(k) == k {
      CamelKeyIdentity(k);
    }
    MapKeysFixed(once, CamelKey, NoBreak);
  }
}
