/**
 * Tables as the stores see them: rows in storage order, primary keys, the two ways
 * the ORM reads one record (`Find` and `First`), and `varchar(n)` columns.
 */
module Tables {
  import opened Wrappers

  /** Some row has primary key `k`. */
  predicate HasKey<T>(rows: seq<T>, key: T -> string, k: string) {
    exists i :: 0 <= i < |rows| && key(rows[i]) == k
  }

  /** Every row has a non-empty primary key, and no two rows share one. */
  predicate Keyed<T>(rows: seq<T>, key: T -> string) {
    (forall i :: 0 <= i < |rows| ==> key(rows[i]) != "") &&
    (forall i, j :: 0 <= i < j < |rows| ==> key(rows[i]) != key(rows[j]))
  }

  /** Appending a row with a new, non-empty key keeps the keys non-empty and distinct. */
  lemma AppendKeyed<T>(rows: seq<T>, row: T, key: T -> string)
    requires Keyed(rows, key) && key(row) != "" && !HasKey(rows, key, key(row))
    ensures Keyed(rows + [row], key)
  {
    var after := rows + [row];
    forall i, j | 0 <= i < j < |after| ensures key(after[i]) != key(after[j]) {
      if j == |rows| {
        assert after[i] == rows[i];
      }
    }
  }

  /** Appending rows keeps every key that was present. */
  lemma AppendHasKey<T>(rows: seq<T>, more: seq<T>, key: T -> string, k: string)
    requires HasKey(rows, key, k)
    ensures HasKey(rows + more, key, k)
  {
    var i :| 0 <= i < |rows| && key(rows[i]) == k;
    assert (rows + more)[i] == rows[i];
  }

  /**
   * `Find` into one record: the first row, in the order the table yields them,
   * that satisfies `p`; None when no row does.
   */
  function FirstMatch<T>(rows: seq<T>, p: T -> bool): (r: Option<T>)
    ensures r.None? <==> forall i :: 0 <= i < |rows| ==> !p(rows[i])
    ensures r.Some? ==> exists i :: 0 <= i < |rows| && rows[i] == r.value && p(rows[i]) &&
                                    forall j :: 0 <= j < i ==> !p(rows[j])
  {
    if rows == [] then None
    else if p(rows[0]) then Some(rows[0])
    else
      var r := FirstMatch(rows[1..], p);
      assert forall i :: 1 <= i < |rows| ==> rows[i] == rows[1..][i - 1];
      r
  }

  /** Appending a row leaves the lookup unchanged, unless nothing matched before. */
  lemma {:induction false} FirstMatchAppend<T>(rows: seq<T>, row: T, p: T -> bool)
    ensures FirstMatch(rows, p).Some? ==> FirstMatch(rows + [row], p) == FirstMatch(rows, p)
    ensures FirstMatch(rows, p).None? ==> FirstMatch(rows + [row], p) == if p(row) then Some(row) else None
  {
    if rows != [] {
      assert (rows + [row])[1..] == rows[1..] + [row];
      FirstMatchAppend(rows[1..], row, p);
    }
  }

  /** The order `ORDER BY` puts key text in: character by character, a prefix first. */
  predicate KeyLessEq(a: string, b: string) {
    if a == [] then true
    else if b == [] then false
    else if a[0] != b[0] then a[0] < b[0]
    else KeyLessEq(a[1..], b[1..])
  }

  lemma {:induction false} KeyLessEqReflexive(a: string)
    ensures KeyLessEq(a, a)
  {
    if a != [] {
      KeyLessEqReflexive(a[1..]);
    }
  }

  lemma {:induction false} KeyLessEqTotal(a: string, b: string)
    ensures KeyLessEq(a, b) || KeyLessEq(b, a)
  {
    if a != [] && b != [] && a[0] == b[0] {
      KeyLessEqTotal(a[1..], b[1..]);
    }
  }

  lemma {:induction false} KeyLessEqTransitive(a: string, b: string, c: string)
    requires KeyLessEq(a, b) && KeyLessEq(b, c)
    ensures KeyLessEq(a, c)
  {
    if a != [] && b != [] && c != [] && a[0] == b[0] && b[0] == c[0] {
      KeyLessEqTransitive(a[1..], b[1..], c[1..]);
    }
  }

  lemma {:induction false} KeyLessEqAntisymmetric(a: string, b: string)
    requires KeyLessEq(a, b) && KeyLessEq(b, a)
    ensures a == b
  {
    if a != [] && b != [] {
      KeyLessEqAntisymmetric(a[1..], b[1..]);
      assert a == [a[0]] + a[1..] && b == [b[0]] + b[1..];
    }
  }

  /** A key below the least matching key is below every matching key. */
  lemma BelowLeast<T>(rows: seq<T>, p: T -> bool, key: T -> string, least: string, k: string)
    requires forall i :: 0 <= i < |rows| && p(rows[i]) ==> KeyLessEq(least, key(rows[i]))
    requires KeyLessEq(k, least)
    ensures forall i :: 0 <= i < |rows| && p(rows[i]) ==> KeyLessEq(k, key(rows[i]))
  {
    forall i | 0 <= i < |rows| && p(rows[i]) ensures KeyLessEq(k, key(rows[i])) {
      KeyLessEqTransitive(k, least, key(rows[i]));
    }
  }

  /**
   * `First`: the row satisfying `p` whose primary key comes first in key order;
   * None when no row does.
   */
  function LeastKeyMatch<T>(rows: seq<T>, p: T -> bool, key: T -> string): (r: Option<T>)
    ensures r.None? <==> forall i :: 0 <= i < |rows| ==> !p(rows[i])
    ensures r.Some? ==> r.value in rows && p(r.value) &&
                        forall i :: 0 <= i < |rows| && p(rows[i]) ==> KeyLessEq(key(r.value), key(rows[i]))
  {
    if rows == [] then None
    else
      var rest := LeastKeyMatch(rows[1..], p, key);
      assert forall i :: 1 <= i < |rows| ==> rows[i] == rows[1..][i - 1];
      if !p(rows[0]) then rest
      else if rest.None? then
        KeyLessEqReflexive(key(rows[0]));
        Some(rows[0])
      else
        KeyLessEqTotal(key(rows[0]), key(rest.value));
        if KeyLessEq(key(rows[0]), key(rest.value)) then
          BelowLeast(rows[1..], p, key, key(rest.value), key(rows[0]));
          KeyLessEqReflexive(key(rows[0]));
          Some(rows[0])
        else rest
  }

  /**
   * Storing text into a `varchar(n)` column: text longer than `n` is refused,
   * unless every character beyond the limit is a space; then it is cut to `n`.
   */
  function Varchar(s: string, n: nat): (r: Option<string>)
    ensures r.None? <==> exists i :: n <= i < |s| && s[i] != ' '
    ensures r.Some? ==> |r.value| <= n && r.value <= s
    ensures r.Some? && |s| > n ==> r.value == s[..n]
    ensures r.Some? ==> forall i :: |r.value| <= i < |s| ==> s[i] == ' '
    ensures |s| <= n ==> r == Some(s)
  {
    if |s| <= n then Some(s)
    else if forall i :: n <= i < |s| ==> s[i] == ' ' then Some(s[..n])
    else None
  }
}
