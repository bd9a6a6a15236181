/**
 * The order of a JavaScript object's own string keys (`Object.keys`): keys that are
 * array indices come first, in ascending numeric order, then every other key in the
 * order it was first added. The label groups of the layout engine come out in this
 * order, because they are read back from a plain object keyed by label.
 */
module ObjectKeys {

  predicate IsDigit(c: char) {
    '0' <= c <= '9'
  }

  predicate AllDigits(s: string) {
    forall i :: 0 <= i < |s| ==> IsDigit(s[i])
  }

  /** The decimal value of a string of digits. */
  function DigitsValue(s: string): nat
    requires AllDigits(s)
  {
    if s == [] then 0 else DigitsValue(s[..|s| - 1]) * 10 + (s[|s| - 1] as int - '0' as int)
  }

  /** An array index: "0", or digits without a leading zero, whose value is below 2^32 - 1. */
  predicate IsIndex(s: string) {
    && |s| >= 1 && AllDigits(s)
    && (s[0] != '0' || |s| == 1)
    && DigitsValue(s) < 0xFFFF_FFFF
  }

  function Value(s: string): nat
    requires IsIndex(s)
  {
    DigitsValue(s)
  }

  /** Adding a new property: an index goes into the ascending index prefix, any other key at the end. */
  function InsertKey(keys: seq<string>, k: string): seq<string> {
    if k in keys then keys else if IsIndex(k) then InsertIndex(keys, k) else keys + [k]
  }

  /** Puts index k after the indices not greater than it and before everything else. */
  function InsertIndex(keys: seq<string>, k: string): seq<string>
    requires IsIndex(k)
    decreases keys
  {
    if keys == [] || !IsIndex(keys[0]) || Value(k) < Value(keys[0]) then [k] + keys
    else [keys[0]] + InsertIndex(keys[1..], k)
  }

  predicate NoDup(keys: seq<string>) {
    forall i, j :: 0 <= i < j < |keys| ==> keys[i] != keys[j]
  }

  /** Indices come before the other keys and are in ascending order. */
  predicate Ordered(keys: seq<string>) {
    forall i, j :: 0 <= i < j < |keys| && IsIndex(keys[j]) ==> IsIndex(keys[i]) && Value(keys[i]) <= Value(keys[j])
  }

  /** The keys that are not indices, in order. */
  function Named(keys: seq<string>): seq<string> {
    if keys == [] then [] else (if IsIndex(keys[0]) then [] else [keys[0]]) + Named(keys[1..])
  }

  lemma {:induction false} NamedAppend(a: seq<string>, b: seq<string>)
    ensures Named(a + b) == Named(a) + Named(b)
    decreases a
  {
    if a == [] {
      assert a + b == b;
    } else {
      assert (a + b)[0] == a[0];
      assert (a + b)[1..] == a[1..] + b;
      NamedAppend(a[1..], b);
    }
  }

  /** Inserting an index adds exactly that key. */
  lemma {:induction false} InsertIndexMembers(keys: seq<string>, k: string)
    requires IsIndex(k)
    ensures forall x :: x in InsertIndex(keys, k) <==> x in keys || x == k
    decreases keys
  {
    if !(keys == [] || !IsIndex(keys[0]) || Value(k) < Value(keys[0])) {
      InsertIndexMembers(keys[1..], k);
      assert keys == [keys[0]] + keys[1..];
    }
  }

  /** Inserting an index leaves the non-index keys as they were. */
  lemma {:induction false} InsertIndexNamed(keys: seq<string>, k: string)
    requires IsIndex(k)
    ensures Named(InsertIndex(keys, k)) == Named(keys)
    decreases keys
  {
    var r := InsertIndex(keys, k);
    if keys == [] || !IsIndex(keys[0]) || Value(k) < Value(keys[0]) {
      assert r[0] == k && r[1..] == keys;
    } else {
      InsertIndexNamed(keys[1..], k);
      assert r[0] == keys[0] && r[1..] == InsertIndex(keys[1..], k);
    }
  }

  lemma {:induction false} InsertIndexNoDup(keys: seq<string>, k: string)
    requires IsIndex(k) && NoDup(keys) && k !in keys
    ensures NoDup(InsertIndex(keys, k))
    decreases keys
  {
    var r := InsertIndex(keys, k);
    if keys == [] || !IsIndex(keys[0]) || Value(k) < Value(keys[0]) {
      assert r == [k] + keys;
      forall i, j | 0 <= i < j < |r| ensures r[i] != r[j] {
        assert r[j] == keys[j - 1];
        if i > 0 {
          assert r[i] == keys[i - 1];
        }
      }
    } else {
      var rest := InsertIndex(keys[1..], k);
      InsertIndexNoDup(keys[1..], k);
      InsertIndexMembers(keys[1..], k);
      assert r == [keys[0]] + rest;
      forall i, j | 0 <= i < j < |r| ensures r[i] != r[j] {
        assert r[j] == rest[j - 1];
        if i == 0 {
          assert keys[0] !in keys[1..];
        } else {
          assert r[i] == rest[i - 1];
        }
      }
    }
  }

  lemma {:induction false} InsertIndexOrdered(keys: seq<string>, k: string)
    requires IsIndex(k) && Ordered(keys)
    ensures Ordered(InsertIndex(keys, k))
    decreases keys
  {
    var r := InsertIndex(keys, k);
    if keys == [] || !IsIndex(keys[0]) || Value(k) < Value(keys[0]) {
      assert r == [k] + keys;
      forall i, j | 0 <= i < j < |r| && IsIndex(r[j]) ensures IsIndex(r[i]) && Value(r[i]) <= Value(r[j]) {
        assert r[j] == keys[j - 1];
        if i == 0 {
          if j - 1 > 0 {
            assert IsIndex(keys[0]) && Value(keys[0]) <= Value(keys[j - 1]);
          }
        } else {
          assert r[i] == keys[i - 1];
        }
      }
    } else {
      var rest := InsertIndex(keys[1..], k);
      InsertIndexOrdered(keys[1..], k);
      InsertIndexMembers(keys[1..], k);
      assert r == [keys[0]] + rest;
      forall i, j | 0 <= i < j < |r| && IsIndex(r[j]) ensures IsIndex(r[i]) && Value(r[i]) <= Value(r[j]) {
        assert r[j] == rest[j - 1];
        if i == 0 {
          if r[j] != k {
            assert r[j] in rest;
            assert r[j] in keys[1..];
            var m :| 0 <= m < |keys[1..]| && keys[1..][m] == r[j];
            assert keys[1 + m] == r[j];
          }
        } else {
          assert r[i] == rest[i - 1];
        }
      }
    }
  }

  /**
   * Adding a key keeps the key list free of repeats and in `Object.keys` order, adds
   * exactly that key, and appends it to the other (non-index) keys when it is new
   * and not an index: non-index keys stay in the order they were first added.
   */
  lemma {:induction false} InsertKeyProps(keys: seq<string>, k: string)
    requires Ordered(keys) && NoDup(keys)
    ensures var r := InsertKey(keys, k);
      && Ordered(r) && NoDup(r)
      && (forall x :: x in r <==> x in keys || x == k)
      && Named(r) == Named(keys) + (if k !in keys && !IsIndex(k) then [k] else [])
  {
    if k !in keys {
      if IsIndex(k) {
        InsertIndexMembers(keys, k);
        InsertIndexNamed(keys, k);
        InsertIndexNoDup(keys, k);
        InsertIndexOrdered(keys, k);
      } else {
        NamedAppend(keys, [k]);
        assert Named([k]) == [k] by {
          assert [k][1..] == [];
        }
      }
    }
  }
}
