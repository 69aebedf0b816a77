/**
 * The few JavaScript string and array library operations the task manager's
 * forms rely on: the whitespace class shared by regular-expression `\s` and
 * `String.prototype.trim`, `trim`, `split` on one character, `join`, `filter`
 * and a one-element `splice`.
 */
module Text {

  /** JavaScript's WhiteSpace and LineTerminator code points: what `\s` matches
      in a regular expression and what `trim` strips from either end. */
  predicate IsSpace(c: char) {
    c == '\t' || c == '\n' || c == '\U{B}' || c == '\U{C}' || c == '\r' || c == ' '
    || c == '\U{A0}' || c == '\U{1680}' || ('\U{2000}' <= c <= '\U{200A}')
    || c == '\U{2028}' || c == '\U{2029}' || c == '\U{202F}' || c == '\U{205F}'
    || c == '\U{3000}' || c == '\U{FEFF}'
  }

  predicate AllSpace(s: string) {
    forall k | 0 <= k < |s| :: IsSpace(s[k])
  }

  /** The index of the first non-whitespace character at or after `i`, or
      `|s|` when there is none: where `trim`'s result starts. */
  function SkipSpaces(s: string, i: nat): (n: nat)
    requires i <= |s|
    ensures i <= n <= |s|
    ensures forall k | i <= k < n :: IsSpace(s[k])
    ensures n == |s| || !IsSpace(s[n])
    decreases |s| - i
  {
    if i < |s| && IsSpace(s[i]) then SkipSpaces(s, i + 1) else i
  }

  /** The index just past the last non-whitespace character in `s[lo..j]`, or
      `lo` when there is none: where `trim`'s result ends. */
  function SkipSpacesBack(s: string, lo: nat, j: nat): (m: nat)
    requires lo <= j <= |s|
    ensures lo <= m <= j
    ensures forall k | m <= k < j :: IsSpace(s[k])
    ensures m == lo || !IsSpace(s[m - 1])
  {
    if lo < j && IsSpace(s[j - 1]) then SkipSpacesBack(s, lo, j - 1) else j
  }

  /** `String.prototype.trim`: whitespace removed from both ends; nothing is
      left exactly when the string is all whitespace. */
  function Trim(s: string): (r: string)
    ensures |r| <= |s|
    ensures r == [] || (!IsSpace(r[0]) && !IsSpace(r[|r| - 1]))
    ensures r == [] <==> AllSpace(s)
  {
    var i := SkipSpaces(s, 0);
    var j := SkipSpacesBack(s, i, |s|);
    s[i..j]
  }

  /** What `trim` keeps is an infix `s[i..i + |r|]` of `s`, and everything it
      dropped on either side is whitespace. */
  lemma TrimInfix(s: string) returns (i: nat)
    ensures i + |Trim(s)| <= |s| && Trim(s) == s[i..i + |Trim(s)|]
    ensures forall k | 0 <= k < i :: IsSpace(s[k])
    ensures forall k | i + |Trim(s)| <= k < |s| :: IsSpace(s[k])
  {
    i := SkipSpaces(s, 0);
    var j := SkipSpacesBack(s, i, |s|);
    assert Trim(s) == s[i..j] && |s[i..j]| == j - i;
  }

  /** A trimmed string is its own trim: `trim` is idempotent. */
  lemma TrimIdempotent(s: string)
    ensures Trim(Trim(s)) == Trim(s)
  {
    TrimFixed(Trim(s));
  }

  /** A string with no whitespace at either end is left unchanged by `trim`. */
  lemma TrimFixed(s: string)
    requires s == [] || (!IsSpace(s[0]) && !IsSpace(s[|s| - 1]))
    ensures Trim(s) == s
  {
    assert SkipSpaces(s, 0) == 0;
    assert SkipSpacesBack(s, 0, |s|) == |s|;
  }

  /** `s.split(sep)` for a one-character separator: the pieces between
      successive separators, in order; the empty string yields one empty piece. */
  function Split(s: string, sep: char): (parts: seq<string>)
    ensures |parts| >= 1
    ensures forall p <- parts :: sep !in p
  {
    if s == [] then [[]]
    else
      var rest := Split(s[1..], sep);
      if s[0] == sep then [[]] + rest
      else [[s[0]] + rest[0]] + rest[1..]
  }

  /** `parts.join(sep)`: the parts with `sep` between consecutive ones. */
  function Join(parts: seq<string>, sep: string): string {
    if parts == [] then []
    else if |parts| == 1 then parts[0]
    else parts[0] + sep + Join(parts[1..], sep)
  }

  /** Joining what `split` produced with the same separator gives back the
      original string: `split` loses nothing and invents nothing. */
  lemma {:induction false} JoinSplit(s: string, sep: char)
    ensures Join(Split(s, sep), [sep]) == s
  {
    if s != [] {
      var rest := Split(s[1..], sep);
      JoinSplit(s[1..], sep);
      if s[0] == sep {
        assert Split(s, sep) == [[]] + rest;
        assert ([[]] + rest)[1..] == rest;
      } else {
        var parts := [[s[0]] + rest[0]] + rest[1..];
        assert Split(s, sep) == parts;
        if |rest| == 1 {
          assert Join(parts, [sep]) == [s[0]] + rest[0];
        } else {
          assert parts[1..] == rest[1..];
          assert Join(parts, [sep]) == [s[0]] + (rest[0] + [sep] + Join(rest[1..], [sep]));
        }
        assert s == [s[0]] + s[1..];
      }
    }
  }

  /** A string without the separator is one piece. */
  lemma {:induction false} SplitNoSeparator(s: string, sep: char)
    requires sep !in s
    ensures Split(s, sep) == [s]
  {
    if s != [] {
      SplitNoSeparator(s[1..], sep);
      assert [s[0]] + s[1..] == s;
    }
  }

  /** A separator-free piece followed by the separator splits off as the
      first piece. */
  lemma {:induction false} SplitAfterPiece(a: string, sep: char, b: string)
    requires sep !in a
    ensures Split(a + [sep] + b, sep) == [a] + Split(b, sep)
  {
    var s := a + [sep] + b;
    if a == [] {
      assert s[1..] == b;
    } else {
      assert s[1..] == a[1..] + [sep] + b;
      SplitAfterPiece(a[1..], sep, b);
      assert [a[0]] + a[1..] == a;
    }
  }

  /** Splitting what `join` produced from separator-free parts gives back the
      parts: with `JoinSplit`, `split` and `join` are inverse. */
  lemma {:induction false} SplitJoin(parts: seq<string>, sep: char)
    requires |parts| >= 1
    requires forall p <- parts :: sep !in p
    ensures Split(Join(parts, [sep]), sep) == parts
  {
    if |parts| == 1 {
      SplitNoSeparator(parts[0], sep);
    } else {
      assert parts[0] in parts;
      SplitAfterPiece(parts[0], sep, Join(parts[1..], [sep]));
      SplitJoin(parts[1..], sep);
      assert [parts[0]] + parts[1..] == parts;
    }
  }

  /** Every piece `split` produces from an all-whitespace string is itself
      all whitespace. */
  lemma {:induction false} SplitAllSpace(s: string, sep: char)
    requires AllSpace(s)
    ensures forall p <- Split(s, sep) :: AllSpace(p)
  {
    if s != [] {
      assert AllSpace(s[1..]) by {
        forall k | 0 <= k < |s| - 1 ensures IsSpace(s[1..][k]) {
          assert s[1..][k] == s[k + 1];
        }
      }
      SplitAllSpace(s[1..], sep);
      var rest := Split(s[1..], sep);
      if s[0] != sep {
        var first := [s[0]] + rest[0];
        assert rest[0] in rest;
        assert AllSpace(first) by {
          forall k | 0 <= k < |first| ensures IsSpace(first[k]) {
            if k > 0 { assert first[k] == rest[0][k - 1]; } else { assert first[0] == s[0]; }
          }
        }
      }
    }
  }

  /** `s.filter(keep)`: the elements of `s` that `keep` accepts, in order. */
  function Filter<T>(s: seq<T>, keep: T -> bool): (r: seq<T>)
    ensures |r| <= |s|
    ensures forall x <- r :: x in s && keep(x)
    ensures forall x <- s :: keep(x) ==> x in r
  {
    if s == [] then []
    else (if keep(s[0]) then [s[0]] else []) + Filter(s[1..], keep)
  }

  /** Filtering a concatenation filters each part and keeps them in order:
      the accepted elements come out in input order, repeats included. */
  lemma {:induction false} FilterAppend<T>(a: seq<T>, b: seq<T>, keep: T -> bool)
    ensures Filter(a + b, keep) == Filter(a, keep) + Filter(b, keep)
  {
    if a == [] {
      assert a + b == b;
    } else {
      assert (a + b)[0] == a[0];
      assert (a + b)[1..] == a[1..] + b;
      FilterAppend(a[1..], b, keep);
    }
  }

  /** Nothing passes the filter when `keep` accepts no element. */
  lemma {:induction false} FilterNone<T>(s: seq<T>, keep: T -> bool)
    requires forall x <- s :: !keep(x)
    ensures Filter(s, keep) == []
  {
    if s != [] {
      assert s[0] in s;
      FilterNone(s[1..], keep);
    }
  }

  /** Everything passes the filter when `keep` accepts every element. */
  lemma {:induction false} FilterAll<T>(s: seq<T>, keep: T -> bool)
    requires forall x <- s :: keep(x)
    ensures Filter(s, keep) == s
  {
    if s != [] {
      assert s[0] in s;
      FilterAll(s[1..], keep);
      assert [s[0]] + s[1..] == s;
    }
  }

  /** When `s[k]` is the first element `keep` accepts, it heads the filtered
      sequence. */
  lemma {:induction false} FilterFirst<T>(s: seq<T>, keep: T -> bool, k: nat)
    requires k < |s| && keep(s[k])
    requires forall m | 0 <= m < k :: !keep(s[m])
    ensures Filter(s, keep) != [] && Filter(s, keep)[0] == s[k]
  {
    if k > 0 {
      FilterFirst(s[1..], keep, k - 1);
    }
  }

  /** `s.splice(start, 1)` on a copy of `s`: JavaScript's clamping of the start
      index, counting a negative one from the end, then removal of at most one
      element. */
  function SpliceOne<T>(s: seq<T>, start: int): (r: seq<T>)
    ensures 0 <= start < |s| ==> r == s[..start] + s[start + 1..]
    ensures -|s| <= start < 0 ==> r == s[..|s| + start] + s[|s| + start + 1..]
    ensures start < -|s| && s != [] ==> r == s[1..]
    ensures start >= |s| || s == [] ==> r == s
  {
    var from := if start < 0 then (if |s| + start < 0 then 0 else |s| + start)
                else (if start < |s| then start else |s|);
    if from < |s| then s[..from] + s[from + 1..] else s
  }

  /** Removing the element at an in-range index drops the length by one and
      keeps the others in their relative order: those before `i` stay where
      they were and those after move one place down. */
  lemma SpliceOneInRange<T>(s: seq<T>, i: nat)
    requires i < |s|
    ensures |SpliceOne(s, i)| == |s| - 1
    ensures forall k | 0 <= k < i :: SpliceOne(s, i)[k] == s[k]
    ensures forall k | i <= k < |s| - 1 :: SpliceOne(s, i)[k] == s[k + 1]
    ensures multiset(SpliceOne(s, i)) + multiset{s[i]} == multiset(s)
  {
    var r := SpliceOne(s, i);
    assert s == s[..i] + [s[i]] + s[i + 1..];
  }

  /** Every element left by `SpliceOne` was in the original sequence. */
  lemma SpliceOneSubset<T>(s: seq<T>, start: int)
    ensures forall x <- SpliceOne(s, start) :: x in s
  {
    var r := SpliceOne(s, start);
    forall x <- r ensures x in s {
      var k :| 0 <= k < |r| && r[k] == x;
      if 0 <= start < |s| {
        if k < start { assert r[k] == s[k]; } else { assert r[k] == s[k + 1]; }
      } else if -|s| <= start < 0 {
        var a := |s| + start;
        if k < a { assert r[k] == s[k]; } else { assert r[k] == s[k + 1]; }
      } else if start < 0 {
        assert r[k] == s[k + 1];
      }
    }
  }

  /** ASCII upper-casing of one character, the part of `toUpperCase` the model
      keeps. */
  function Upper(c: char): (u: char)
    ensures 'a' <= c <= 'z' ==> 'A' <= u <= 'Z' && u as int - c as int == 'A' as int - 'a' as int
    ensures !('a' <= c <= 'z') ==> u == c
  {
    if 'a' <= c <= 'z' then (c as int - 'a' as int + 'A' as int) as char else c
  }
}
