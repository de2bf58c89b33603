/** The parts of Python's `str` behaviour that the modelled code relies on. */
module Text {
  import opened Wrappers

  /** Characters for which Python's `str.isspace()` holds; `str.rstrip()` with no argument removes these. */
  predicate IsSpace(c: char) {
    || '\U{9}' <= c <= '\U{D}'
    || '\U{1C}' <= c <= '\U{20}'
    || c == '\U{85}' || c == '\U{A0}' || c == '\U{1680}'
    || '\U{2000}' <= c <= '\U{200A}'
    || c == '\U{2028}' || c == '\U{2029}' || c == '\U{202F}' || c == '\U{205F}' || c == '\U{3000}'
  }

  /** `s.rstrip()`: the longest prefix of `s` that does not end in white space. */
  function RStrip(s: string): (r: string)
    ensures r <= s
    ensures r == [] || !IsSpace(r[|r| - 1])
    ensures forall i :: |r| <= i < |s| ==> IsSpace(s[i])
  {
    if s != [] && IsSpace(s[|s| - 1]) then RStrip(s[..|s| - 1]) else s
  }

  /** `sep.join(parts)`. */
  function Join(parts: seq<string>, sep: string): string {
    if parts == [] then []
    else if |parts| == 1 then parts[0]
    else parts[0] + sep + Join(parts[1..], sep)
  }

  /** `s.split(sep)` for a one-character separator: the pieces between separators, never an empty list. */
  function Split(s: string, sep: char): (parts: seq<string>)
    ensures |parts| >= 1
    ensures forall i :: 0 <= i < |parts| ==> sep !in parts[i]
  {
    if s == [] then [[]]
    else
      var rest := Split(s[1..], sep);
      if s[0] == sep then [[]] + rest else [[s[0]] + rest[0]] + rest[1..]
  }

  /** Joining the pieces of a split with the separator gives back the original string. */
  lemma {:induction false} JoinSplit(s: string, sep: char)
    ensures Join(Split(s, sep), [sep]) == s
  {
    if s != [] {
      var rest := Split(s[1..], sep);
      JoinSplit(s[1..], sep);
      if s[0] == sep {
        assert Split(s, sep) == [[]] + rest;
        assert ([[]] + rest)[1..] == rest;
      } else if |rest| == 1 {
        assert Split(s, sep) == [[s[0]] + rest[0]];
      } else {
        assert Split(s, sep) == [[s[0]] + rest[0]] + rest[1..];
        assert ([[s[0]] + rest[0]] + rest[1..])[1..] == rest[1..];
        assert Join(rest, [sep]) == rest[0] + [sep] + Join(rest[1..], [sep]);
        assert s == [s[0]] + s[1..];
      }
    }
  }

  /** `s.split(sep, maxsplit=1)` unpacked into two names: the text before and after the first separator,
      or None when there is no separator (Python then raises on the unpacking). */
  function SplitOnce(s: string, sep: char): (r: Option<(string, string)>)
    ensures r.None? <==> sep !in s
    ensures r.Some? ==> s == r.value.0 + [sep] + r.value.1 && sep !in r.value.0
  {
    if s == [] then None
    else if s[0] == sep then Some(([], s[1..]))
    else
      match SplitOnce(s[1..], sep)
      case None => None
      case Some(kv) => Some(([s[0]] + kv.0, kv.1))
  }

  /** The split is at the first separator: a key without the separator comes back unchanged, and the
      value keeps every later separator. */
  lemma {:induction false} SplitOnceAt(key: string, value: string, sep: char)
    requires sep !in key
    ensures SplitOnce(key + [sep] + value, sep) == Some((key, value))
  {
    var s := key + [sep] + value;
    if key != [] {
      assert s[1..] == key[1..] + [sep] + value;
      SplitOnceAt(key[1..], value, sep);
      assert key == [key[0]] + key[1..];
    }
  }

  /** Python's `a < b` on strings: lexicographic order on code points, a proper prefix first. */
  predicate Less(a: string, b: string) {
    if a == [] then b != []
    else if b == [] then false
    else a[0] < b[0] || (a[0] == b[0] && Less(a[1..], b[1..]))
  }

  lemma {:induction false} LessIrreflexive(a: string)
    ensures !Less(a, a)
  {
    if a != [] { LessIrreflexive(a[1..]); }
  }

  lemma {:induction false} LessAsymmetric(a: string, b: string)
    ensures !(Less(a, b) && Less(b, a))
  {
    if a != [] && b != [] && a[0] == b[0] { LessAsymmetric(a[1..], b[1..]); }
  }

  lemma {:induction false} LessTransitive(a: string, b: string, c: string)
    requires Less(a, b) && Less(b, c)
    ensures Less(a, c)
  {
    if a != [] && a[0] == b[0] && b[0] == c[0] { LessTransitive(a[1..], b[1..], c[1..]); }
  }

  lemma {:induction false} LessTotal(a: string, b: string)
    ensures a == b || Less(a, b) || Less(b, a)
  {
    if a != [] && b != [] && a[0] == b[0] {
      LessTotal(a[1..], b[1..]);
      assert a == [a[0]] + a[1..] && b == [b[0]] + b[1..];
    }
  }

  /** Ascending without repetitions, as `sorted()` leaves the elements of a set. */
  ghost predicate StrictlySorted(s: seq<string>) {
    forall i, j :: 0 <= i < j < |s| ==> Less(s[i], s[j])
  }

  /** Every non-empty set of strings has a least element. */
  lemma {:induction false} LeastExists(s: set<string>)
    requires s != {}
    ensures exists x :: x in s && forall y :: y in s && y != x ==> Less(x, y)
  {
    var z :| z in s;
    if s != {z} {
      LeastExists(s - {z});
      var m :| m in s - {z} && forall y :: y in s - {z} && y != m ==> Less(m, y);
      LessTotal(z, m);
      if Less(z, m) {
        forall y | y in s && y != z ensures Less(z, y) {
          if y != m { LessTransitive(z, m, y); }
        }
      } else {
        assert forall y :: y in s && y != m ==> Less(m, y);
      }
    }
  }

  /** The elements of a set in ascending order: what Python's `sorted()` returns for a set of strings. */
  ghost function SortedSeq(s: set<string>): (r: seq<string>)
    ensures StrictlySorted(r)
    ensures forall y :: y in r <==> y in s
  {
    if s == {} then []
    else
      LeastExists(s);
      var x :| x in s && forall y :: y in s && y != x ==> Less(x, y);
      [x] + SortedSeq(s - {x})
  }

  /** Two ascending lists without repetitions that hold the same elements are the same list, so the
      order that `sorted()` produces is determined by the set alone. */
  lemma {:induction false} SortedUnique(a: seq<string>, b: seq<string>)
    requires StrictlySorted(a) && StrictlySorted(b)
    requires forall y :: y in a <==> y in b
    ensures a == b
  {
    assert b == [] || b[0] in b;
    if a != [] {
      assert b != [] by { assert a[0] in b; }
      if a[0] != b[0] {
        assert b[0] in a && a[0] in b;
        var i :| 0 <= i < |a| && a[i] == b[0];
        var k :| 0 <= k < |b| && b[k] == a[0];
        assert Less(a[0], a[i]) && Less(b[0], b[k]);
        LessAsymmetric(a[0], b[0]);
      }
      forall y ensures y in a[1..] <==> y in b[1..] {
        if y in a[1..] {
          var i :| 1 <= i < |a| && a[i] == y;
          LessIrreflexive(y);
          assert y != a[0];
          assert y in b;
        }
        if y in b[1..] {
          var k :| 1 <= k < |b| && b[k] == y;
          LessIrreflexive(y);
          assert y != b[0];
          assert y in a;
        }
      }
      SortedUnique(a[1..], b[1..]);
    }
  }

  /** Inserts `x` into an ascending list at its place. */
  function Insert(x: string, s: seq<string>): (r: seq<string>)
    requires StrictlySorted(s) && x !in s
    ensures StrictlySorted(r)
    ensures forall y :: y in r <==> y == x || y in s
  {
    if s == [] then [x]
    else if Less(x, s[0]) then
      assert forall j :: 0 <= j < |s| ==> Less(x, s[j]) by {
        forall j | 0 < j < |s| ensures Less(x, s[j]) { LessTransitive(x, s[0], s[j]); }
      }
      [x] + s
    else
      LessTotal(x, s[0]);
      var tail := Insert(x, s[1..]);
      assert forall y :: y in tail ==> Less(s[0], y);
      [s[0]] + tail
  }

  /** `sorted(names)` for a set of names. */
  method SortNames(names: set<string>) returns (r: seq<string>)
    ensures r == SortedSeq(names)
  {
    r := [];
    var rest := names;
    while rest != {}
      invariant rest <= names
      invariant StrictlySorted(r)
      invariant forall y :: y in r <==> y in names - rest
      decreases rest
    {
      var x :| x in rest;
      r := Insert(x, r);
      rest := rest - {x};
    }
    SortedUnique(r, SortedSeq(names));
  }
}
