/**
 * The password string of lib/GesturePassword.js: `_onFinish` reports the
 * path of visited point indices as `this._path.join('')`. Indices are 0..8,
 * so every index is one decimal digit and the string is one character per
 * visited point.
 */
module Digits {

  /** Every index of `path` is one decimal digit. */
  predicate AllDigits(path: seq<nat>)
  {
    forall k :: 0 <= k < |path| ==> path[k] < 10
  }

  predicate NoDuplicates<T(==)>(s: seq<T>)
  {
    forall i, j :: 0 <= i < j < |s| ==> s[i] != s[j]
  }

  /** Appending an element that is not yet present keeps a sequence duplicate-free. */
  lemma AppendFresh<T>(s: seq<T>, x: T)
    requires NoDuplicates(s) && x !in s
    ensures NoDuplicates(s + [x])
  {
  }

  /**
   * In a duplicate-free `a + b` the first element of `b` is not in `a`, and
   * moving it to the end of `a` leaves the concatenation as it was.
   */
  lemma ShiftFresh<T>(a: seq<T>, b: seq<T>)
    requires NoDuplicates(a + b) && b != []
    ensures b[0] !in a && (a + [b[0]]) + b[1..] == a + b
  {
    assert (a + b)[|a|] == b[0];
    forall i | 0 <= i < |a|
      ensures a[i] != b[0]
    {
      assert (a + b)[i] == a[i];
    }
    assert b == [b[0]] + b[1..];
  }

  /** The character of a one-digit number. */
  function Digit(i: nat): char
    requires i < 10
  {
    ('0' as int + i) as char
  }

  predicate IsDigit(c: char)
  {
    '0' as int <= c as int <= '9' as int
  }

  /** `path.join('')` for indices below ten: one digit per index, in order. */
  function Join(path: seq<nat>): (s: string)
    requires AllDigits(path)
    ensures |s| == |path|
    ensures forall k :: 0 <= k < |path| ==> s[k] == Digit(path[k]) && IsDigit(s[k])
  {
    if path == [] then "" else [Digit(path[0])] + Join(path[1..])
  }

  /** A three-point path reads as its three digits. */
  lemma JoinThree(a: nat, b: nat, c: nat)
    requires a < 10 && b < 10 && c < 10
    ensures Join([a, b, c]) == [Digit(a), Digit(b), Digit(c)]
  {
    assert [a, b, c][1..] == [b, c] && [b, c][1..] == [c];
  }

  /** Reads a password string back into the path it was joined from. */
  function Parse(s: string): (path: seq<nat>)
    requires forall k :: 0 <= k < |s| ==> IsDigit(s[k])
    ensures |path| == |s|
    ensures AllDigits(path)
  {
    if s == [] then [] else assert IsDigit(s[0]); [(s[0] as int - '0' as int) as nat] + Parse(s[1..])
  }

  /** The password determines the path: parsing it gives the path back. */
  lemma {:induction false} ParseJoin(path: seq<nat>)
    requires AllDigits(path)
    ensures Parse(Join(path)) == path
  {
    if path != [] {
      ParseJoin(path[1..]);
      assert Join(path)[1..] == Join(path[1..]);
    }
  }

  /** Every digit string is the password of exactly the path it parses to. */
  lemma {:induction false} JoinParse(s: string)
    requires forall k :: 0 <= k < |s| ==> IsDigit(s[k])
    ensures Join(Parse(s)) == s
  {
    if s != [] {
      JoinParse(s[1..]);
      assert Parse(s)[1..] == Parse(s[1..]);
    }
  }

  /** Different paths give different passwords. */
  lemma JoinInjective(p: seq<nat>, q: seq<nat>)
    requires AllDigits(p) && AllDigits(q)
    requires Join(p) == Join(q)
    ensures p == q
  {
    ParseJoin(p);
    ParseJoin(q);
  }

  /** A path that visits no index twice gives a password that repeats no character. */
  lemma JoinDistinct(path: seq<nat>)
    requires AllDigits(path) && NoDuplicates(path)
    ensures NoDuplicates(Join(path))
  {
    var s := Join(path);
    forall i, j | 0 <= i < j < |s|
      ensures s[i] != s[j]
    {
      assert path[i] != path[j];
    }
  }

  /** The indices below `n`, as a set of `n` elements. */
  function Below(n: nat): (r: set<nat>)
    ensures |r| == n
    ensures forall x: nat :: x in r <==> x < n
  {
    if n == 0 then {} else Below(n - 1) + {n - 1}
  }

  /** The indices a path visits, as a set. */
  function Elements(s: seq<nat>): set<nat>
  {
    set x | x in s
  }

  /** A duplicate-free sequence has as many distinct elements as it is long. */
  lemma {:induction false} DistinctElements(s: seq<nat>)
    requires NoDuplicates(s)
    ensures |Elements(s)| == |s|
  {
    if s != [] {
      var init, last := s[..|s| - 1], s[|s| - 1];
      DistinctElements(init);
      assert s == init + [last];
      assert last !in Elements(init);
      assert Elements(s) == Elements(init) + {last};
    }
  }

  /** A duplicate-free path of indices below `n` is at most `n` long. */
  lemma DistinctBelowBound(s: seq<nat>, n: nat)
    requires NoDuplicates(s)
    requires forall k :: 0 <= k < |s| ==> s[k] < n
    ensures |s| <= n
  {
    var elements := Elements(s);
    DistinctElements(s);
    assert elements <= Below(n);
    var rest := Below(n) - elements;
    assert Below(n) == elements + rest && elements !! rest;
  }
}
