/**
 * An ordered record with string keys, the way a JavaScript object built by
 * assignment behaves: assigning to a key that is already present replaces
 * its value where the key stands, assigning to a new key appends it.
 *
 * A record is a sequence of (key, value) entries; the records built here
 * never hold a key twice.
 */
module Record {

  datatype Option<T> = None | Some(value: T)

  /** The keys of a record, in order. */
  function Keys<V>(fields: seq<(string, V)>): (ks: seq<string>) {
    seq(|fields|, i requires 0 <= i < |fields| => fields[i].0)
  }

  predicate Distinct(ks: seq<string>) {
    forall i, j :: 0 <= i < j < |ks| ==> ks[i] != ks[j]
  }

  /** Position of the first occurrence of k in ks. */
  function FirstIndex(ks: seq<string>, k: string): (n: nat)
    requires k in ks
    ensures n < |ks| && ks[n] == k
    ensures forall i :: 0 <= i < n ==> ks[i] != k
  {
    if ks[0] == k then 0 else 1 + FirstIndex(ks[1..], k)
  }

  /** The value stored under k: that of the first entry with key k. */
  function Lookup<V>(fields: seq<(string, V)>, k: string): (r: Option<V>)
    ensures r.Some? <==> k in Keys(fields)
    ensures r.Some? ==> r.value == fields[FirstIndex(Keys(fields), k)].1
  {
    if |fields| == 0 then None
    else if fields[0].0 == k then
      assert Keys(fields)[0] == k;
      Some(fields[0].1)
    else
      var ks, ks1 := Keys(fields), Keys(fields[1..]);
      assert ks == [fields[0].0] + ks1;
      assert k in ks1 ==> FirstIndex(ks, k) == 1 + FirstIndex(ks1, k);
      Lookup(fields[1..], k)
  }

  /**
   * `record[k] = v`: the value of an existing key is replaced in place,
   * a new key is appended at the end.
   */
  function SetField<V>(fields: seq<(string, V)>, k: string, v: V): (r: seq<(string, V)>)
    ensures k in Keys(fields) ==> r == fields[FirstIndex(Keys(fields), k) := (k, v)]
    ensures k !in Keys(fields) ==> r == fields + [(k, v)]
  {
    if |fields| == 0 then [(k, v)]
    else if fields[0].0 == k then
      SetFieldHere(fields, k, v);
      [(k, v)] + fields[1..]
    else
      var rest := SetField(fields[1..], k, v);
      SetFieldFurther(fields, k, v, rest);
      [fields[0]] + rest
  }

  lemma SetFieldHere<V>(fields: seq<(string, V)>, k: string, v: V)
    requires |fields| > 0 && fields[0].0 == k
    ensures k in Keys(fields) && FirstIndex(Keys(fields), k) == 0
    ensures fields[0 := (k, v)] == [(k, v)] + fields[1..]
  {
    assert Keys(fields)[0] == k;
  }

  lemma SetFieldFurther<V>(fields: seq<(string, V)>, k: string, v: V, rest: seq<(string, V)>)
    requires |fields| > 0 && fields[0].0 != k
    requires k in Keys(fields[1..]) ==> rest == fields[1..][FirstIndex(Keys(fields[1..]), k) := (k, v)]
    requires k !in Keys(fields[1..]) ==> rest == fields[1..] + [(k, v)]
    ensures k in Keys(fields) ==> [fields[0]] + rest == fields[FirstIndex(Keys(fields), k) := (k, v)]
    ensures k !in Keys(fields) ==> [fields[0]] + rest == fields + [(k, v)]
  {
    var ks, ks1 := Keys(fields), Keys(fields[1..]);
    assert ks == [fields[0].0] + ks1;
    assert [fields[0]] + fields[1..] == fields;
    if k in ks1 {
      var n := FirstIndex(ks1, k);
      assert FirstIndex(ks, k) == 1 + n;
      UpdateCons(fields[0], fields[1..], n, (k, v));
    }
  }

  lemma UpdateCons<T>(x: T, s: seq<T>, n: nat, y: T)
    requires n < |s|
    ensures [x] + s[n := y] == ([x] + s)[n + 1 := y]
  {
  }

  /** After `record[k] = v` the keys are those before, with k appended if it was new. */
  lemma SetFieldKeys<V>(fields: seq<(string, V)>, k: string, v: V)
    ensures Keys(SetField(fields, k, v)) == if k in Keys(fields) then Keys(fields) else Keys(fields) + [k]
  {
    var r, ks := SetField(fields, k, v), Keys(fields);
    if k in ks {
      assert Keys(r) == ks;
    } else {
      assert Keys(r) == ks + [k];
    }
  }

  /** After `record[k] = v`, k holds v and every other key holds what it held before. */
  lemma SetFieldLookup<V>(fields: seq<(string, V)>, k: string, v: V, k': string)
    ensures Lookup(SetField(fields, k, v), k) == Some(v)
    ensures k' != k ==> Lookup(SetField(fields, k, v), k') == Lookup(fields, k')
  {
    if k in Keys(fields) {
      SetFieldLookupPresent(fields, k, v, k');
    } else {
      SetFieldLookupAbsent(fields, k, v, k');
    }
  }

  lemma SetFieldLookupPresent<V>(fields: seq<(string, V)>, k: string, v: V, k': string)
    requires k in Keys(fields)
    ensures Lookup(SetField(fields, k, v), k) == Some(v)
    ensures k' != k ==> Lookup(SetField(fields, k, v), k') == Lookup(fields, k')
  {
    var ks := Keys(fields);
    var n := FirstIndex(ks, k);
    var r := fields[n := (k, v)];
    assert SetField(fields, k, v) == r;
    assert Keys(r) == ks;
    assert r[n] == (k, v);
    if k' != k && k' in ks {
      var m := FirstIndex(ks, k');
      assert m != n;
      assert r[m] == fields[m];
    }
  }

  lemma SetFieldLookupAbsent<V>(fields: seq<(string, V)>, k: string, v: V, k': string)
    requires k !in Keys(fields)
    ensures Lookup(SetField(fields, k, v), k) == Some(v)
    ensures k' != k ==> Lookup(SetField(fields, k, v), k') == Lookup(fields, k')
  {
    var ks := Keys(fields);
    var r := fields + [(k, v)];
    assert SetField(fields, k, v) == r;
    assert Keys(r) == ks + [k];
    FirstIndexAfter(ks, k);
    if k' != k && k' in ks {
      FirstIndexAppend(ks, k, k');
      var m := FirstIndex(ks, k');
      assert r[m] == fields[m];
    }
  }

  lemma {:induction false} FirstIndexAfter(ks: seq<string>, k: string)
    requires k !in ks
    ensures FirstIndex(ks + [k], k) == |ks|
  {
    if |ks| > 0 {
      assert (ks + [k])[1..] == ks[1..] + [k];
      FirstIndexAfter(ks[1..], k);
    }
  }

  /**
   * The record that results from assigning the entries one after the other,
   * left to right, to an empty record.
   */
  function Assemble<V>(entries: seq<(string, V)>): (r: seq<(string, V)>) {
    if |entries| == 0 then []
    else SetField(Assemble(entries[..|entries| - 1]), entries[|entries| - 1].0, entries[|entries| - 1].1)
  }

  /** The assembled record holds each assigned key once, and no other key. */
  lemma {:induction false} AssembleKeys<V>(entries: seq<(string, V)>)
    ensures Distinct(Keys(Assemble(entries)))
    ensures forall k :: k in Keys(Assemble(entries)) <==> k in Keys(entries)
  {
    if |entries| > 0 {
      var n := |entries| - 1;
      var init, last := entries[..n], entries[n];
      KeysSnoc(init, last);
      assert init + [last] == entries;
      var prev := Assemble(init);
      AssembleKeys(init);
      SetFieldKeys(prev, last.0, last.1);
      if last.0 !in Keys(prev) {
        DistinctSnoc(Keys(prev), last.0);
      }
    }
  }

  /** Each key of the assembled record holds the value of the last entry assigned to it. */
  lemma {:induction false} AssembleLookup<V>(entries: seq<(string, V)>, k: string)
    ensures Lookup(Assemble(entries), k) == LastValue(entries, k)
  {
    if |entries| > 0 {
      var n := |entries| - 1;
      var init, last := entries[..n], entries[n];
      AssembleLookup(init, k);
      SetFieldLookup(Assemble(init), last.0, last.1, k);
    }
  }

  /** The value of the last entry with key k: the one a later assignment leaves in place. */
  function LastValue<V>(entries: seq<(string, V)>, k: string): (r: Option<V>)
  {
    if |entries| == 0 then None
    else if entries[|entries| - 1].0 == k then Some(entries[|entries| - 1].1)
    else LastValue(entries[..|entries| - 1], k)
  }

  /** When no later entry reuses its key, an entry's value is the one that stays. */
  lemma {:induction false} LastValueAt<V>(entries: seq<(string, V)>, j: nat)
    requires j < |entries|
    requires forall i :: j < i < |entries| ==> entries[i].0 != entries[j].0
    ensures LastValue(entries, entries[j].0) == Some(entries[j].1)
  {
    if j < |entries| - 1 {
      LastValueAt(entries[..|entries| - 1], j);
    }
  }

  /** Every entry of the assembled record is one of the assigned entries. */
  lemma {:induction false} AssembleEntriesFrom<V>(entries: seq<(string, V)>)
    ensures forall x :: x in Assemble(entries) ==> x in entries
  {
    if |entries| > 0 {
      var n := |entries| - 1;
      var init, last := entries[..n], entries[n];
      AssembleEntriesFrom(init);
      var prev := Assemble(init);
      forall x | x in Assemble(entries) ensures x in entries {
        if x != last {
          assert x in prev;
          assert x in init;
        }
      }
    }
  }

  /** Every key of ks stands in src, and ks lists them in the order they first appear in src. */
  predicate InFirstOccurrenceOrder(ks: seq<string>, src: seq<string>) {
    (forall i :: 0 <= i < |ks| ==> ks[i] in src) &&
    (forall i, j :: 0 <= i < j < |ks| ==> FirstIndex(src, ks[i]) < FirstIndex(src, ks[j]))
  }

  lemma {:induction false} FirstIndexAppend(ks: seq<string>, x: string, k: string)
    requires k in ks
    ensures FirstIndex(ks + [x], k) == FirstIndex(ks, k)
  {
    if ks[0] != k {
      assert (ks + [x])[1..] == ks[1..] + [x];
      FirstIndexAppend(ks[1..], x, k);
    }
  }

  /**
   * A key keeps the position at which it was first assigned, however often
   * it is assigned again.
   */
  lemma {:induction false} AssembleOrder<V>(entries: seq<(string, V)>)
    ensures InFirstOccurrenceOrder(Keys(Assemble(entries)), Keys(entries))
  {
    if |entries| > 0 {
      var init := entries[..|entries| - 1];
      var last := entries[|entries| - 1];
      var src, src0 := Keys(entries), Keys(init);
      assert src == src0 + [last.0];
      AssembleOrder(init);
      AssembleKeys(init);
      SetFieldKeys(Assemble(init), last.0, last.1);
      var ks0 := Keys(Assemble(init));
      var ks := Keys(Assemble(entries));
      forall k | k in src0 ensures FirstIndex(src, k) == FirstIndex(src0, k) {
        FirstIndexAppend(src0, last.0, k);
      }
      if last.0 in ks0 {
        assert ks == ks0;
      } else {
        assert ks == ks0 + [last.0];
        FirstIndexAfter(src0, last.0);
      }
    }
  }

  /** Assigning entries whose keys are all different rebuilds exactly those entries. */
  lemma {:induction false} AssembleDistinct<V>(entries: seq<(string, V)>)
    requires Distinct(Keys(entries))
    ensures Assemble(entries) == entries
  {
    if |entries| > 0 {
      var n := |entries| - 1;
      var init, last := entries[..n], entries[n];
      KeysSnoc(init, last);
      assert init + [last] == entries;
      DistinctSnoc(Keys(init), last.0);
      AssembleDistinct(init);
      assert Assemble(entries) == SetField(init, last.0, last.1);
    }
  }

  lemma KeysSnoc<V>(fields: seq<(string, V)>, e: (string, V))
    ensures Keys(fields + [e]) == Keys(fields) + [e.0]
  {
  }

  /** Appending x keeps the keys distinct exactly when x is new. */
  lemma DistinctSnoc(ks: seq<string>, x: string)
    ensures Distinct(ks + [x]) <==> Distinct(ks) && x !in ks
  {
    var s := ks + [x];
    if Distinct(s) {
      assert forall i :: 0 <= i < |ks| ==> s[i] == ks[i];
      assert forall i :: 0 <= i < |ks| ==> ks[i] != s[|ks|];
    }
  }
}
