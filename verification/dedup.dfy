/**
 * `DataFrame.drop_duplicates(subset=...)` with its default `keep="first"`:
 * of the rows sharing a key, only the first stays, and the order of the
 * rows is kept.
 */
module Dedup {

  /** Some element of `r` has key `k`. */
  predicate HasKey<T, K(==)>(r: seq<T>, key: T -> K, k: K) {
    exists i :: 0 <= i < |r| && key(r[i]) == k
  }

  /** The rows of `xs` whose key is not in `seen` yet, each key kept at its first row. */
  function KeepFirst<T, K(==)>(xs: seq<T>, key: T -> K, seen: set<K>): (r: seq<T>)
    ensures |r| <= |xs|
    ensures forall i :: 0 <= i < |r| ==> r[i] in xs && key(r[i]) !in seen
    ensures forall i, j :: 0 <= i < j < |r| ==> key(r[i]) != key(r[j])
    ensures forall i :: 0 <= i < |xs| && key(xs[i]) !in seen ==> HasKey(r, key, key(xs[i]))
  {
    if xs == [] then []
    else if key(xs[0]) in seen then
      var r := KeepFirst(xs[1..], key, seen);
      assert forall i :: 1 <= i < |xs| ==> xs[i] == xs[1..][i - 1];
      r
    else
      var rest := KeepFirst(xs[1..], key, seen + {key(xs[0])});
      var r := [xs[0]] + rest;
      assert forall i :: 1 <= i < |xs| ==> xs[i] == xs[1..][i - 1];
      assert key(r[0]) == key(xs[0]);
      assert HasKey(r, key, key(xs[0]));
      assert forall i :: 1 <= i < |xs| && key(xs[i]) !in seen ==> HasKey(r, key, key(xs[i])) by {
        forall i | 1 <= i < |xs| && key(xs[i]) !in seen
          ensures HasKey(r, key, key(xs[i]))
        {
          if key(xs[i]) != key(xs[0]) {
            HasKeyCons(xs[0], rest, key, key(xs[i]));
          }
        }
      }
      r
  }

  lemma HasKeyCons<T, K>(x: T, rest: seq<T>, key: T -> K, k: K)
    requires HasKey(rest, key, k)
    ensures HasKey([x] + rest, key, k)
  {
    var i :| 0 <= i < |rest| && key(rest[i]) == k;
    assert ([x] + rest)[i + 1] == rest[i];
  }

  /** `drop_duplicates` on the key `key`. */
  function DropDuplicates<T, K(==)>(xs: seq<T>, key: T -> K): (r: seq<T>)
    ensures |r| <= |xs|
    ensures forall i :: 0 <= i < |r| ==> r[i] in xs
    ensures forall i, j :: 0 <= i < j < |r| ==> key(r[i]) != key(r[j])
    ensures forall i :: 0 <= i < |xs| ==> HasKey(r, key, key(xs[i]))
  {
    KeepFirst(xs, key, {})
  }

  // ----- The rows kept are exactly the first row of each key, in order -----

  /** No earlier row of `xs` has the key of row `k`. */
  predicate IsFirst<T, K(==)>(xs: seq<T>, key: T -> K, k: nat)
    requires k < |xs|
  {
    forall j :: 0 <= j < k ==> key(xs[j]) != key(xs[k])
  }

  /** The rows from `k` on that are the first of their key: the reference reading of `keep="first"`. */
  function FirstsFrom<T, K(==)>(xs: seq<T>, key: T -> K, k: nat): seq<T>
    requires k <= |xs|
    decreases |xs| - k
  {
    if k == |xs| then []
    else (if IsFirst(xs, key, k) then [xs[k]] else []) + FirstsFrom(xs, key, k + 1)
  }

  function KeysOf<T, K>(ys: seq<T>, key: T -> K): set<K> {
    set i | 0 <= i < |ys| :: key(ys[i])
  }

  lemma {:induction false} KeepFirstIsFirsts<T, K>(xs: seq<T>, key: T -> K, k: nat)
    requires k <= |xs|
    ensures KeepFirst(xs[k..], key, KeysOf(xs[..k], key)) == FirstsFrom(xs, key, k)
    decreases |xs| - k
  {
    if k < |xs| {
      var seen := KeysOf(xs[..k], key);
      assert xs[k..][0] == xs[k];
      assert xs[k..][1..] == xs[k + 1..];
      assert key(xs[k]) in seen <==> !IsFirst(xs, key, k) by {
        if key(xs[k]) in seen {
          var j :| 0 <= j < k && key(xs[..k][j]) == key(xs[k]);
          assert xs[..k][j] == xs[j];
        }
        if !IsFirst(xs, key, k) {
          var j :| 0 <= j < k && key(xs[j]) == key(xs[k]);
          assert xs[..k][j] == xs[j];
        }
      }
      KeepFirstIsFirsts(xs, key, k + 1);
      assert KeysOf(xs[..k + 1], key) == seen + {key(xs[k])} by {
        assert forall j :: 0 <= j < k ==> xs[..k + 1][j] == xs[..k][j];
        assert xs[..k + 1][k] == xs[k];
      }
      if key(xs[k]) in seen {
        assert seen + {key(xs[k])} == seen;
      }
    }
  }

  /** `drop_duplicates` keeps exactly the rows that are the first of their key, in their order. */
  lemma DropDuplicatesKeepsFirsts<T, K>(xs: seq<T>, key: T -> K)
    ensures DropDuplicates(xs, key) == FirstsFrom(xs, key, 0)
  {
    KeepFirstIsFirsts(xs, key, 0);
    assert xs[0..] == xs;
    assert KeysOf(xs[..0], key) == {};
  }
}
