/**
 * The two key rewriters of the object-notation utility, written as
 * left-to-right character scans instead of regular expressions.
 *
 *  - CamelKey rewrites every `_` immediately followed by an ASCII lowercase
 *    letter into that letter in uppercase. Matches do not overlap: after a
 *    match the scan resumes behind the letter.
 *  - SnakeKey rewrites every ASCII uppercase letter into `_` followed by
 *    the same letter in lowercase.
 */
module KeyCase {

  predicate IsUpper(c: char) { 'A' <= c <= 'Z' }

  predicate IsLower(c: char) { 'a' <= c <= 'z' }

  /** ASCII uppercase of a lowercase letter; any other character is kept. */
  function UpperOf(c: char): (u: char)
    ensures IsLower(c) ==> IsUpper(u) && u as int == c as int - 32
    ensures !IsLower(c) ==> u == c
  {
    if IsLower(c) then (c as int - 32) as char else c
  }

  /** ASCII lowercase of an uppercase letter; any other character is kept. */
  function LowerOf(c: char): (l: char)
    ensures IsUpper(c) ==> IsLower(l) && l as int == c as int + 32
    ensures !IsUpper(c) ==> l == c
  {
    if IsUpper(c) then (c as int + 32) as char else c
  }

  /** The two case maps undo each other on the letters they change. */
  lemma CaseMapsInverse(c: char)
    ensures IsLower(c) ==> LowerOf(UpperOf(c)) == c
    ensures IsUpper(c) ==> UpperOf(LowerOf(c)) == c
  {
  }

  /** The key holds no ASCII uppercase letter. */
  predicate NoUpper(s: string) {
    forall i :: 0 <= i < |s| ==> !IsUpper(s[i])
  }

  /** An underscore followed by a lowercase letter starts at position i. */
  predicate BreakAt(s: string, i: int) {
    0 <= i && i + 1 < |s| && s[i] == '_' && IsLower(s[i + 1])
  }

  /** The key holds no `_` immediately followed by a lowercase letter. */
  predicate NoBreak(s: string) {
    forall i :: 0 <= i < |s| ==> !BreakAt(s, i)
  }

  /** The snake_case to camelCase rewriter. */
  function CamelKey(key: string): (r: string)
    ensures |r| <= |key|
  {
    if |key| == 0 then ""
    else if BreakAt(key, 0) then [UpperOf(key[1])] + CamelKey(key[2..])
    else [key[0]] + CamelKey(key[1..])
  }

  /** The camelCase to snake_case rewriter. */
  function SnakeKey(key: string): (r: string)
    ensures |r| >= |key|
    ensures NoUpper(r)
  {
    if |key| == 0 then ""
    else if IsUpper(key[0]) then ['_', LowerOf(key[0])] + SnakeKey(key[1..])
    else [key[0]] + SnakeKey(key[1..])
  }

  /** The first character CamelKey produces. */
  lemma {:induction false} CamelKeyHead(key: string)
    requires |key| > 0
    ensures |CamelKey(key)| > 0
    ensures CamelKey(key)[0] == if BreakAt(key, 0) then UpperOf(key[1]) else key[0]
  {
  }

  /** The first character SnakeKey produces. */
  lemma {:induction false} SnakeKeyHead(key: string)
    requires |key| > 0
    ensures |SnakeKey(key)| > 0
    ensures SnakeKey(key)[0] == if IsUpper(key[0]) then '_' else key[0]
  {
  }

  /** SnakeKey rewrites each character on its own. */
  lemma {:induction false} SnakeKeyConcat(a: string, b: string)
    ensures SnakeKey(a + b) == SnakeKey(a) + SnakeKey(b)
  {
    if |a| > 0 {
      assert (a + b)[1..] == a[1..] + b;
      SnakeKeyConcat(a[1..], b);
      var h := if IsUpper(a[0]) then ['_', LowerOf(a[0])] else [a[0]];
      assert SnakeKey(a + b) == h + (SnakeKey(a[1..]) + SnakeKey(b));
      assert SnakeKey(a) == h + SnakeKey(a[1..]);
    } else {
      assert a + b == b;
    }
  }

  /** The output of CamelKey never holds an underscore followed by a lowercase letter. */
  lemma {:induction false} CamelKeyHasNoBreak(key: string)
    ensures NoBreak(CamelKey(key))
  {
    if |key| == 0 {
    } else {
      var rest := if BreakAt(key, 0) then key[2..] else key[1..];
      CamelKeyHasNoBreak(rest);
      var r := CamelKey(key);
      var tail := CamelKey(rest);
      assert r == [r[0]] + tail;
      if |rest| > 0 {
        CamelKeyHead(rest);
        // The character behind a surviving `_` never becomes lowercase.
        assert r[0] == '_' ==> !BreakAt(key, 0) && key[0] == '_' && !IsLower(rest[0]);
        assert r[0] == '_' ==> !IsLower(tail[0]);
      }
      forall i | 0 <= i < |r| ensures !BreakAt(r, i) {
        if i > 0 {
          assert !BreakAt(tail, i - 1);
        }
      }
    }
  }

  /** CamelKey changes a key exactly when the key holds a `_` followed by a lowercase letter. */
  lemma {:induction false} CamelKeyIdentity(key: string)
    ensures CamelKey(key) == key <==> NoBreak(key)
  {
    if CamelKey(key) == key {
      CamelKeyHasNoBreak(key);
    }
    if NoBreak(key) {
      CamelKeyFixesNoBreak(key);
    }
  }

  lemma {:induction false} CamelKeyFixesNoBreak(key: string)
    requires NoBreak(key)
    ensures CamelKey(key) == key
  {
    if |key| > 0 {
      assert !BreakAt(key, 0);
      assert forall i :: 0 <= i < |key| - 1 ==> key[1..][i] == key[i + 1];
      assert NoBreak(key[1..]) by {
        forall i | 0 <= i < |key[1..]| ensures !BreakAt(key[1..], i) {
          assert !BreakAt(key, i + 1);
        }
      }
      CamelKeyFixesNoBreak(key[1..]);
      assert key == [key[0]] + key[1..];
    }
  }

  /** CamelKey is idempotent. */
  lemma CamelKeyIdempotent(key: string)
    ensures CamelKey(CamelKey(key)) == CamelKey(key)
  {
    CamelKeyHasNoBreak(key);
    CamelKeyIdentity(CamelKey(key));
  }

  /** SnakeKey changes a key exactly when the key holds an uppercase letter. */
  lemma {:induction false} SnakeKeyIdentity(key: string)
    ensures SnakeKey(key) == key <==> NoUpper(key)
  {
    if NoUpper(key) && |key| > 0 {
      assert !IsUpper(key[0]);
      assert NoUpper(key[1..]) by {
        forall i | 0 <= i < |key[1..]| ensures !IsUpper(key[1..][i]) {
          assert key[1..][i] == key[i + 1];
        }
      }
      SnakeKeyIdentity(key[1..]);
      assert key == [key[0]] + key[1..];
    }
  }

  /** SnakeKey is idempotent. */
  lemma SnakeKeyIdempotent(key: string)
    ensures SnakeKey(SnakeKey(key)) == SnakeKey(key)
  {
    SnakeKeyIdentity(SnakeKey(key));
  }

  /** A key without uppercase letters comes back from CamelKey followed by SnakeKey. */
  lemma {:induction false} SnakeKeyUndoesCamelKey(key: string)
    requires NoUpper(key)
    ensures SnakeKey(CamelKey(key)) == key
  {
    if |key| > 0 {
      var n := if BreakAt(key, 0) then 2 else 1;
      var rest := key[n..];
      assert NoUpper(rest) by {
        forall i | 0 <= i < |rest| ensures !IsUpper(rest[i]) {
          assert rest[i] == key[i + n];
        }
      }
      SnakeKeyUndoesCamelKey(rest);
      var c := CamelKey(key);
      assert c == [c[0]] + CamelKey(rest);
      if BreakAt(key, 0) {
        assert IsUpper(c[0]) && LowerOf(c[0]) == key[1];
        assert SnakeKey(c) == ['_', key[1]] + rest;
        assert key == [key[0], key[1]] + rest;
      } else {
        assert !IsUpper(key[0]) && c[0] == key[0];
        assert SnakeKey(c) == [key[0]] + rest;
        assert key == [key[0]] + rest;
      }
    }
  }

  /** A key without `_` followed by a lowercase letter comes back from SnakeKey followed by CamelKey. */
  lemma {:induction false} CamelKeyUndoesSnakeKey(key: string)
    requires NoBreak(key)
    ensures CamelKey(SnakeKey(key)) == key
  {
    if |key| > 0 {
      var rest := key[1..];
      assert NoBreak(rest) by {
        forall i | 0 <= i < |rest| ensures !BreakAt(rest, i) {
          assert !BreakAt(key, i + 1);
        }
      }
      CamelKeyUndoesSnakeKey(rest);
      var s := SnakeKey(key);
      var tail := SnakeKey(rest);
      assert key == [key[0]] + rest;
      if IsUpper(key[0]) {
        assert s == ['_', LowerOf(key[0])] + tail;
        assert BreakAt(s, 0);
        assert s[2..] == tail;
        assert UpperOf(LowerOf(key[0])) == key[0];
      } else {
        assert s == [key[0]] + tail;
        if |rest| > 0 {
          SnakeKeyHead(rest);
          assert !BreakAt(key, 0);
          assert !BreakAt(s, 0);
        } else {
          assert !BreakAt(s, 0);
        }
        assert s[1..] == tail;
      }
    }
  }
}
