/** Rows of a database table held as a sequence in insertion order, each with
    an integer primary key handed out by a sequence (SERIAL). */
module Rows {
  import opened Common

  /** Keys strictly increase along the rows and stay below the next key the
      table's sequence will hand out; in particular no key occurs twice. */
  ghost predicate Keyed<T>(s: seq<T>, key: T -> int, next: int) {
    && (forall i, j :: 0 <= i < j < |s| ==> key(s[i]) < key(s[j]))
    && (forall i :: 0 <= i < |s| ==> key(s[i]) < next)
  }

  /** `SELECT ... WHERE id = $1`: the position of the row whose key is `id`. */
  function Find<T>(s: seq<T>, key: T -> int, id: int): (r: Option<nat>)
    ensures r.Some? ==> r.value < |s| && key(s[r.value]) == id
    ensures r.None? <==> forall k :: 0 <= k < |s| ==> key(s[k]) != id
  {
    if s == [] then None
    else if key(s[0]) == id then Some(0)
    else match Find(s[1..], key, id)
      case None => None
      case Some(k) => Some(k + 1)
  }

  /** With distinct keys the row found is the only one carrying that key. */
  lemma FindKeyed<T>(s: seq<T>, key: T -> int, next: int, k: nat)
    requires Keyed(s, key, next) && k < |s|
    ensures Find(s, key, key(s[k])) == Some(k)
  {
  }

  /** Appending a row with a fresh key from the sequence keeps the table keyed. */
  lemma KeyedAppend<T>(s: seq<T>, key: T -> int, next: int, x: T)
    requires Keyed(s, key, next) && key(x) == next
    ensures Keyed(s + [x], key, next + 1)
  {
    var t := s + [x];
    forall i, j | 0 <= i < j < |t| ensures key(t[i]) < key(t[j]) {
      if j == |s| { assert t[i] == s[i]; } else { assert t[i] == s[i] && t[j] == s[j]; }
    }
    forall i | 0 <= i < |t| ensures key(t[i]) < next + 1 {
      if i < |s| { assert t[i] == s[i]; }
    }
  }

  /** Deleting a row keeps the table keyed. */
  lemma KeyedRemove<T>(s: seq<T>, key: T -> int, next: int, k: nat)
    requires Keyed(s, key, next) && k < |s|
    ensures Keyed(s[..k] + s[k + 1..], key, next)
  {
    var t := s[..k] + s[k + 1..];
    assert forall i :: 0 <= i < |t| ==> t[i] == if i < k then s[i] else s[i + 1];
  }

  /** Overwriting a row without touching its key keeps the table keyed. */
  lemma KeyedUpdate<T>(s: seq<T>, key: T -> int, next: int, k: nat, x: T)
    requires Keyed(s, key, next) && k < |s| && key(x) == key(s[k])
    ensures Keyed(s[k := x], key, next)
  {
  }
}
