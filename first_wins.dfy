/** "First occurrence wins under a given order": scan rows in order and keep a
    row only when no earlier row had the same key. Both passes of the
    latest-state processor and SQL's `SELECT DISTINCT` are instances. */
module FirstWins {

  /** The set of keys of `rows`. */
  function Keys<T, K(==)>(rows: seq<T>, key: T -> K): (ks: set<K>)
    ensures forall i :: 0 <= i < |rows| ==> key(rows[i]) in ks
    ensures forall k :: k in ks ==> exists i :: 0 <= i < |rows| && key(rows[i]) == k
    decreases |rows|
  {
    if rows == [] then {} else Keys(rows[..|rows| - 1], key) + {key(rows[|rows| - 1])}
  }

  /** Row `i` is the first row of `rows` with its key. */
  ghost predicate IsFirstOf<T, K>(rows: seq<T>, key: T -> K, i: int)
    requires 0 <= i < |rows|
  {
    forall j :: 0 <= j < i ==> key(rows[j]) != key(rows[i])
  }

  /** The rows whose key occurs in no earlier row, in their original order. */
  function FirstByKey<T, K(==)>(rows: seq<T>, key: T -> K): seq<T>
    decreases |rows|
  {
    if rows == [] then []
    else
      var init, last := rows[..|rows| - 1], rows[|rows| - 1];
      FirstByKey(init, key) + (if key(last) in Keys(init, key) then [] else [last])
  }

  /** One step of the scan: the row at `i` is kept exactly when its key is not
      among the keys of the rows before it, and its key joins them. */
  lemma ScanStep<T, K>(rows: seq<T>, key: T -> K, i: int)
    requires 0 <= i < |rows|
    ensures Keys(rows[..i + 1], key) == Keys(rows[..i], key) + {key(rows[i])}
    ensures FirstByKey(rows[..i + 1], key)
      == FirstByKey(rows[..i], key) + (if key(rows[i]) in Keys(rows[..i], key) then [] else [rows[i]])
  {
    var prefix := rows[..i + 1];
    assert prefix[..i] == rows[..i] && prefix[i] == rows[i];
  }

  /** Appending a row: it is kept exactly when its key is new. */
  lemma FirstByKeySnoc<T, K>(rows: seq<T>, x: T, key: T -> K)
    ensures FirstByKey(rows + [x], key) == FirstByKey(rows, key) + (if key(x) in Keys(rows, key) then [] else [x])
  {
    var all := rows + [x];
    assert all[..|all| - 1] == rows && all[|all| - 1] == x;
  }

  /** A row value is kept exactly when it occurs at an index that is the first
      with its key. */
  lemma {:induction false} FirstByKeyMember<T, K>(rows: seq<T>, key: T -> K, x: T)
    ensures x in FirstByKey(rows, key) <==>
      exists i :: 0 <= i < |rows| && rows[i] == x && IsFirstOf(rows, key, i)
    decreases |rows|
  {
    if rows != [] {
      var n := |rows| - 1;
      var init, last := rows[..n], rows[n];
      FirstByKeyMember(init, key, x);
      var kept := FirstByKey(rows, key);
      if x in kept {
        if x in FirstByKey(init, key) {
          var i :| 0 <= i < n && init[i] == x && IsFirstOf(init, key, i);
          IsFirstOfPrefix(rows, key, i);
        } else {
          assert x == last;
          NotInKeysIsFirst(rows, key);
        }
      }
      if exists i :: 0 <= i < |rows| && rows[i] == x && IsFirstOf(rows, key, i) {
        var i :| 0 <= i < |rows| && rows[i] == x && IsFirstOf(rows, key, i);
        if i < n {
          IsFirstOfPrefix(rows, key, i);
          assert init[i] == x;
        } else {
          NotInKeysIsFirst(rows, key);
        }
      }
    }
  }

  /** Whether an index is first with its key does not depend on later rows. */
  lemma IsFirstOfPrefix<T, K>(rows: seq<T>, key: T -> K, i: int)
    requires 0 <= i < |rows| - 1
    ensures IsFirstOf(rows, key, i) <==> IsFirstOf(rows[..|rows| - 1], key, i)
  {
    var init := rows[..|rows| - 1];
    assert forall j :: 0 <= j <= i ==> init[j] == rows[j];
  }

  /** The last row is first with its key exactly when no earlier row has that key. */
  lemma NotInKeysIsFirst<T, K>(rows: seq<T>, key: T -> K)
    requires rows != []
    ensures IsFirstOf(rows, key, |rows| - 1) <==> key(rows[|rows| - 1]) !in Keys(rows[..|rows| - 1], key)
  {
    var n := |rows| - 1;
    var init := rows[..n];
    if key(rows[n]) in Keys(init, key) {
      var j :| 0 <= j < n && key(init[j]) == key(rows[n]);
      assert key(rows[j]) == key(rows[n]);
    }
  }

  /** No two kept rows share a key. */
  lemma {:induction false} FirstByKeyDistinct<T, K>(rows: seq<T>, key: T -> K)
    ensures var kept := FirstByKey(rows, key);
      forall i, j :: 0 <= i < j < |kept| ==> key(kept[i]) != key(kept[j])
    decreases |rows|
  {
    if rows != [] {
      var n := |rows| - 1;
      var init, last := rows[..n], rows[n];
      FirstByKeyDistinct(init, key);
      var prev := FirstByKey(init, key);
      forall i | 0 <= i < |prev| ensures key(prev[i]) in Keys(init, key) {
        FirstByKeyMember(init, key, prev[i]);
        var k :| 0 <= k < n && init[k] == prev[i] && IsFirstOf(init, key, k);
        assert key(init[k]) in Keys(init, key);
      }
    }
  }

  /** The kept rows have exactly the keys of all rows: every key is kept once. */
  lemma {:induction false} FirstByKeyKeys<T, K>(rows: seq<T>, key: T -> K)
    ensures Keys(FirstByKey(rows, key), key) == Keys(rows, key)
    decreases |rows|
  {
    if rows != [] {
      var n := |rows| - 1;
      var init, last := rows[..n], rows[n];
      var tail := if key(last) in Keys(init, key) then [] else [last];
      assert Keys(tail, key) == if key(last) in Keys(init, key) then {} else {key(last)} by {
        if tail != [] {
          KeysSingleton(last, key);
        }
      }
      calc {
        Keys(FirstByKey(rows, key), key);
        Keys(FirstByKey(init, key) + tail, key);
        { KeysAppend(FirstByKey(init, key), tail, key); }
        Keys(FirstByKey(init, key), key) + Keys(tail, key);
        { FirstByKeyKeys(init, key); }
        Keys(init, key) + Keys(tail, key);
        Keys(rows, key);
      }
    }
  }

  /** When every row has the same key, only the first row is kept. */
  lemma {:induction false} FirstByKeyOneKey<T, K>(rows: seq<T>, key: T -> K)
    requires rows != []
    requires forall i :: 0 <= i < |rows| ==> key(rows[i]) == key(rows[0])
    ensures FirstByKey(rows, key) == [rows[0]]
    decreases |rows|
  {
    var n := |rows| - 1;
    var init := rows[..n];
    if n == 0 {
      assert init == [];
    } else {
      assert init[0] == rows[0];
      FirstByKeyOneKey(init, key);
      assert key(rows[n]) == key(init[0]);
    }
  }

  lemma KeysSingleton<T, K>(x: T, key: T -> K)
    ensures Keys([x], key) == {key(x)}
  {
    assert [x][..0] == [];
  }

  /** The keys of a concatenation are the union of the keys of its parts. */
  lemma KeysAppend<T, K>(a: seq<T>, b: seq<T>, key: T -> K)
    ensures Keys(a + b, key) == Keys(a, key) + Keys(b, key)
  {
    var ab := a + b;
    forall k | k in Keys(ab, key) ensures k in Keys(a, key) + Keys(b, key) {
      var i :| 0 <= i < |ab| && key(ab[i]) == k;
      if i < |a| {
        assert ab[i] == a[i];
        assert key(a[i]) in Keys(a, key);
      } else {
        assert ab[i] == b[i - |a|];
        assert key(b[i - |a|]) in Keys(b, key);
      }
    }
    forall k | k in Keys(a, key) ensures k in Keys(ab, key) {
      var i :| 0 <= i < |a| && key(a[i]) == k;
      assert ab[i] == a[i];
      assert key(ab[i]) in Keys(ab, key);
    }
    forall k | k in Keys(b, key) ensures k in Keys(ab, key) {
      var i :| 0 <= i < |b| && key(b[i]) == k;
      assert ab[|a| + i] == b[i];
      assert key(ab[|a| + i]) in Keys(ab, key);
    }
  }
}
