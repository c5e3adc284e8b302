/** The three JavaScript string built-ins the picture store relies on: the
    relational operator `<` on strings (used by the title comparator),
    `String.prototype.includes` (the title filter) and
    `String.prototype.split` with a one-character separator (the MIME type
    of an upload). */
module Strings {

  /** `a < b` on JavaScript strings: lexicographic, character by character,
      and a proper prefix sorts before the longer string. */
  predicate Less(a: string, b: string)
  {
    if a == [] then b != []
    else if b == [] then false
    else if a[0] != b[0] then a[0] < b[0]
    else Less(a[1..], b[1..])
  }

  /** An independent description of the same order: `a` is a proper prefix
      of `b`, or the two agree up to a position where `a` has the smaller
      character. */
  ghost predicate LexicographicallyBefore(a: string, b: string)
  {
    (|a| < |b| && b[..|a|] == a) ||
    exists k :: 0 <= k < |a| && k < |b| && a[..k] == b[..k] && a[k] < b[k]
  }

  lemma LessIsLexicographic(a: string, b: string)
    ensures Less(a, b) <==> LexicographicallyBefore(a, b)
  {
    if Less(a, b) {
      LessIsBefore(a, b);
    }
    if LexicographicallyBefore(a, b) {
      BeforeIsLess(a, b);
    }
  }

  lemma {:induction false} LessIsBefore(a: string, b: string)
    requires Less(a, b)
    ensures LexicographicallyBefore(a, b)
  {
    if a == [] {
      assert b[..0] == a;
    } else if a[0] != b[0] {
      assert a[..0] == b[..0];
    } else {
      LessIsBefore(a[1..], b[1..]);
      if |a[1..]| < |b[1..]| && b[1..][..|a[1..]|] == a[1..] {
        assert b[..|a|] == [b[0]] + b[1..][..|a[1..]|];
        assert a == [a[0]] + a[1..];
      } else {
        var k :| 0 <= k < |a[1..]| && k < |b[1..]| && a[1..][..k] == b[1..][..k] && a[1..][k] < b[1..][k];
        assert a[..k + 1] == [a[0]] + a[1..][..k];
        assert b[..k + 1] == [b[0]] + b[1..][..k];
      }
    }
  }

  lemma {:induction false} BeforeIsLess(a: string, b: string)
    requires LexicographicallyBefore(a, b)
    ensures Less(a, b)
  {
    if a != [] {
      assert b != [];
      if a[0] == b[0] {
        if |a| < |b| && b[..|a|] == a {
          assert b[1..][..|a[1..]|] == b[..|a|][1..];
        } else {
          var k :| 0 <= k < |a| && k < |b| && a[..k] == b[..k] && a[k] < b[k];
          assert k > 0;
          assert a[1..][..k - 1] == a[..k][1..];
          assert b[1..][..k - 1] == b[..k][1..];
          assert a[1..][k - 1] == a[k];
        }
        BeforeIsLess(a[1..], b[1..]);
      }
    }
  }

  lemma {:induction false} LessIrreflexive(a: string)
    ensures !Less(a, a)
  {
    if a != [] {
      LessIrreflexive(a[1..]);
    }
  }

  lemma {:induction false} LessAsymmetric(a: string, b: string)
    ensures Less(a, b) ==> !Less(b, a)
  {
    if a != [] && b != [] && a[0] == b[0] {
      LessAsymmetric(a[1..], b[1..]);
    }
  }

  lemma {:induction false} LessTransitive(a: string, b: string, c: string)
    requires Less(a, b) && Less(b, c)
    ensures Less(a, c)
  {
    if a != [] && a[0] == b[0] && b[0] == c[0] {
      LessTransitive(a[1..], b[1..], c[1..]);
    }
  }

  /** Any two strings are equal or ordered one way round. */
  lemma {:induction false} LessTotal(a: string, b: string)
    ensures a == b || Less(a, b) || Less(b, a)
  {
    if a != [] && b != [] && a[0] == b[0] {
      LessTotal(a[1..], b[1..]);
      if a[1..] == b[1..] {
        assert a == [a[0]] + a[1..] && b == [b[0]] + b[1..];
      }
    }
  }

  /** A common prefix does not change the order, either way. */
  lemma LessCommonPrefix(p: string, a: string, b: string)
    ensures Less(p + a, p + b) <==> Less(a, b)
  {
    if Less(a, b) {
      PrefixKeepsLess(p, a, b);
    } else if Less(p + a, p + b) {
      LessTotal(a, b);
      if a == b {
        LessIrreflexive(p + a);
      } else {
        PrefixKeepsLess(p, b, a);
        LessAsymmetric(p + a, p + b);
      }
    }
  }

  lemma {:induction false} PrefixKeepsLess(p: string, a: string, b: string)
    requires Less(a, b)
    ensures Less(p + a, p + b)
  {
    if p != [] {
      PrefixKeepsLess(p[1..], a, b);
      var x, y := p + a, p + b;
      assert x[1..] == p[1..] + a && y[1..] == p[1..] + b;
    } else {
      assert p + a == a && p + b == b;
    }
  }

  predicate IsPrefix(p: string, s: string)
  {
    |p| <= |s| && s[..|p|] == p
  }

  /** `s.includes(t)`: `t` occurs in `s` at the first position or later. */
  predicate Includes(s: string, t: string)
  {
    IsPrefix(t, s) || (s != [] && Includes(s[1..], t))
  }

  /** `t` is a contiguous piece of `s`. */
  ghost predicate Occurs(t: string, s: string)
  {
    exists i :: 0 <= i <= |s| - |t| && IsPrefix(t, s[i..])
  }

  lemma {:induction false} IncludesIsOccurs(s: string, t: string)
    ensures Includes(s, t) <==> Occurs(t, s)
  {
    if IsPrefix(t, s) {
      assert s[0..] == s;
    }
    if s != [] {
      IncludesIsOccurs(s[1..], t);
      if Occurs(t, s[1..]) {
        var i :| 0 <= i <= |s[1..]| - |t| && IsPrefix(t, s[1..][i..]);
        assert s[1..][i..] == s[i + 1..];
      }
      if Occurs(t, s) && !IsPrefix(t, s) {
        var i :| 0 <= i <= |s| - |t| && IsPrefix(t, s[i..]);
        assert i != 0 by { assert s[0..] == s; }
        assert s[1..][i - 1..] == s[i..];
      }
    } else if Occurs(t, s) {
      var i :| 0 <= i <= |s| - |t| && IsPrefix(t, s[i..]);
      assert s[i..] == s;
    }
  }

  /** `s.split(sep)` for a one-character separator: the pieces between the
      separators, empty ones included; the empty string splits into one
      empty piece. */
  function Split(s: string, sep: char): (parts: seq<string>)
    ensures |parts| >= 1
    ensures forall k :: 0 <= k < |parts| ==> sep !in parts[k]
  {
    if s == [] then [[]]
    else
      var rest := Split(s[1..], sep);
      if s[0] == sep then [[]] + rest
      else [[s[0]] + rest[0]] + rest[1..]
  }

  /** `parts.join(sep)`, the inverse of `Split`. */
  function Join(parts: seq<string>, sep: char): string
    requires |parts| >= 1
  {
    if |parts| == 1 then parts[0] else parts[0] + [sep] + Join(parts[1..], sep)
  }

  lemma {:induction false} JoinSplit(s: string, sep: char)
    ensures Join(Split(s, sep), sep) == s
  {
    if s != [] {
      var rest := Split(s[1..], sep);
      JoinSplit(s[1..], sep);
      if s[0] != sep && |rest| > 1 {
        assert ([[s[0]] + rest[0]] + rest[1..])[1..] == rest[1..];
      }
    }
  }

  lemma {:induction false} SplitNoSeparator(a: string, sep: char)
    requires sep !in a
    ensures Split(a, sep) == [a]
  {
    if a != [] {
      SplitNoSeparator(a[1..], sep);
      assert [a[0]] + a[1..] == a;
    }
  }

  /** Splitting stops at the first separator. */
  lemma {:induction false} SplitAtFirstSeparator(a: string, sep: char, b: string)
    requires sep !in a
    ensures Split(a + [sep] + b, sep) == [a] + Split(b, sep)
  {
    if a == [] {
      assert ([sep] + b)[1..] == b;
    } else {
      assert (a + [sep] + b)[1..] == a[1..] + [sep] + b;
      SplitAtFirstSeparator(a[1..], sep, b);
      assert [a[0]] + a[1..] == a;
    }
  }

  lemma {:induction false} SplitJoin(parts: seq<string>, sep: char)
    requires |parts| >= 1
    requires forall k :: 0 <= k < |parts| ==> sep !in parts[k]
    ensures Split(Join(parts, sep), sep) == parts
  {
    if |parts| == 1 {
      SplitNoSeparator(parts[0], sep);
    } else {
      SplitJoin(parts[1..], sep);
      SplitAtFirstSeparator(parts[0], sep, Join(parts[1..], sep));
    }
  }
}
