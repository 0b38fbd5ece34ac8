/**
 * The JavaScript string operations the converter relies on: `split` on
 * one character, `join`, `trim`, `includes`, and the `\s` character class
 * of its regular expressions.
 */
module Text {

  /** JavaScript's `\s`, which is also the set of characters `trim()` removes. */
  predicate IsSpace(c: char)
  {
    var n := c as int;
    n == 0x09 || n == 0x0A || n == 0x0B || n == 0x0C || n == 0x0D || n == 0x20 ||
    n == 0xA0 || n == 0x1680 || (0x2000 <= n <= 0x200A) || n == 0x2028 || n == 0x2029 ||
    n == 0x202F || n == 0x205F || n == 0x3000 || n == 0xFEFF
  }

  predicate AllSpace(s: string)
  {
    forall i :: 0 <= i < |s| ==> IsSpace(s[i])
  }

  /** The number of occurrences of `c` in `s`. */
  function Count(s: string, c: char): nat
  {
    if s == [] then 0 else (if s[0] == c then 1 else 0) + Count(s[1..], c)
  }

  /** A string without `c` has no occurrence of it. */
  lemma {:induction false} CountAbsent(s: string, c: char)
    requires c !in s
    ensures Count(s, c) == 0
  {
    if s != [] {
      CountAbsent(s[1..], c);
    }
  }

  /**
   * `s.split(sep)`: the pieces between the occurrences of `sep`, one more
   * than there are separators, none of them containing `sep`.
   */
  function Split(s: string, sep: char): (parts: seq<string>)
    ensures |parts| == Count(s, sep) + 1
    ensures forall i :: 0 <= i < |parts| ==> sep !in parts[i]
  {
    if s == [] then [[]]
    else
      var rest := Split(s[1..], sep);
      if s[0] == sep then [[]] + rest
      else [[s[0]] + rest[0]] + rest[1..]
  }

  /** `parts.join(sep)`. */
  function Join(parts: seq<string>, sep: char): string
  {
    if |parts| == 0 then []
    else if |parts| == 1 then parts[0]
    else parts[0] + [sep] + Join(parts[1..], sep)
  }

  /** Joining the pieces of a split with the same separator gives back the string. */
  lemma {:induction false} JoinSplit(s: string, sep: char)
    ensures Join(Split(s, sep), sep) == s
  {
    if s != [] {
      JoinSplit(s[1..], sep);
      var rest := Split(s[1..], sep);
      if s[0] == sep {
        assert Split(s, sep)[1..] == rest;
      } else if |rest| > 1 {
        var parts := Split(s, sep);
        assert parts[1..] == rest[1..];
        assert Join(rest, sep) == rest[0] + [sep] + Join(rest[1..], sep);
      }
    }
  }

  /** A joined string holds only the separator and characters of the parts. */
  lemma {:induction false} JoinChars(parts: seq<string>, sep: char, c: char)
    requires c in Join(parts, sep)
    ensures c == sep || exists i :: 0 <= i < |parts| && c in parts[i]
  {
    if |parts| > 1 {
      var tail := Join(parts[1..], sep);
      if c !in parts[0] && c != sep {
        assert c in tail;
        JoinChars(parts[1..], sep, c);
        var i :| 0 <= i < |parts| - 1 && c in parts[1..][i];
        assert c in parts[i + 1];
      }
    }
  }

  /** Everything before the first separator is the first piece. */
  lemma {:induction false} SplitAtFirst(a: string, sep: char, b: string)
    requires sep !in a
    ensures Split(a + [sep] + b, sep) == [a] + Split(b, sep)
  {
    if a == [] {
      assert (a + [sep] + b)[1..] == b;
    } else {
      SplitAtFirst(a[1..], sep, b);
      assert (a + [sep] + b)[1..] == a[1..] + [sep] + b;
      var rest := Split(a[1..] + [sep] + b, sep);
      assert rest[1..] == Split(b, sep);
      assert [a[0]] + rest[0] == a;
    }
  }

  /** Text without the separator in front of a string joins its first piece. */
  lemma {:induction false} SplitPrepend(w: string, sep: char, x: string)
    requires sep !in w
    ensures Split(w + x, sep) == [w + Split(x, sep)[0]] + Split(x, sep)[1..]
  {
    if w != [] {
      SplitPrepend(w[1..], sep, x);
      assert w[0] in w;
      assert (w + x)[0] == w[0] && (w + x)[1..] == w[1..] + x;
      var rest := Split(w[1..] + x, sep);
      assert rest[1..] == Split(x, sep)[1..];
      assert [w[0]] + rest[0] == w + Split(x, sep)[0];
    } else {
      var p := Split(x, sep);
      assert w + x == x && w + p[0] == p[0];
    }
  }

  /** A string without the separator is a single piece. */
  lemma {:induction false} SplitNoSeparator(w: string, sep: char)
    requires sep !in w
    ensures Split(w, sep) == [w]
  {
    if w != [] {
      SplitNoSeparator(w[1..], sep);
      assert [w[0]] + w[1..] == w;
    }
  }

  /** Text without the separator after a string joins its last piece. */
  lemma {:induction false} SplitAppend(x: string, sep: char, w: string)
    requires sep !in w
    ensures var p := Split(x, sep);
            Split(x + w, sep) == p[..|p| - 1] + [p[|p| - 1] + w]
  {
    if x == [] {
      SplitNoSeparator(w, sep);
      assert x + w == w;
    } else {
      SplitAppend(x[1..], sep, w);
      assert (x + w)[1..] == x[1..] + w;
      var q := Split(x[1..], sep);
      var rest := Split(x[1..] + w, sep);
      assert rest == q[..|q| - 1] + [q[|q| - 1] + w];
      var p := Split(x, sep);
      if x[0] == sep {
        assert p == [[]] + q;
        assert p[..|p| - 1] == [[]] + q[..|q| - 1];
      } else if |q| == 1 {
        assert rest == [q[0] + w];
        assert p == [[x[0]] + q[0]];
        assert [x[0]] + rest[0] == ([x[0]] + q[0]) + w;
      } else {
        assert rest[0] == q[0];
        assert rest[1..] == q[1..|q| - 1] + [q[|q| - 1] + w];
        assert p == [[x[0]] + q[0]] + q[1..];
        assert p[..|p| - 1] == [[x[0]] + q[0]] + q[1..|q| - 1];
      }
    }
  }

  /** The number of whitespace characters at the start of `s`. */
  function LeadingSpaces(s: string): (n: nat)
    ensures n <= |s|
    ensures AllSpace(s[..n])
    ensures n < |s| ==> !IsSpace(s[n])
  {
    if s == [] || !IsSpace(s[0]) then 0
    else
      var n := 1 + LeadingSpaces(s[1..]);
      assert s[..n] == [s[0]] + s[1..][..n - 1];
      n
  }

  /** The number of whitespace characters at the end of `s`. */
  function TrailingSpaces(s: string): (n: nat)
    ensures n <= |s|
    ensures AllSpace(s[|s| - n..])
    ensures n < |s| ==> !IsSpace(s[|s| - n - 1])
  {
    if s == [] || !IsSpace(s[|s| - 1]) then 0
    else
      var init := s[..|s| - 1];
      var n := 1 + TrailingSpaces(init);
      assert s[|s| - n..] == init[|init| - (n - 1)..] + [s[|s| - 1]];
      n
  }

  function TrimStart(s: string): string
  {
    s[LeadingSpaces(s)..]
  }

  function TrimEnd(s: string): string
  {
    s[..|s| - TrailingSpaces(s)]
  }

  /** `s.trim()`: the string without whitespace at either end. */
  function Trim(s: string): (r: string)
    ensures r == [] || (!IsSpace(r[0]) && !IsSpace(r[|r| - 1]))
  {
    TrimStart(TrimEnd(s))
  }

  /** Trimming the end ignores whitespace appended to the string. */
  lemma {:induction false} TrimEndAppend(s: string, w: string)
    requires AllSpace(w)
    ensures TrimEnd(s + w) == TrimEnd(s)
  {
    if w != [] {
      var sw := s + w;
      var init := sw[..|sw| - 1];
      assert init == s + w[..|w| - 1];
      TrimEndAppend(s, w[..|w| - 1]);
      assert IsSpace(sw[|sw| - 1]);
      var t := TrailingSpaces(init);
      assert TrailingSpaces(sw) == 1 + t;
      assert sw[..|sw| - 1 - t] == init[..|init| - t];
      assert TrimEnd(sw) == sw[..|sw| - 1 - t];
      assert TrimEnd(init) == init[..|init| - t];
    } else {
      assert s + w == s;
    }
  }

  /** `s` begins with `p`. */
  predicate StartsWith(s: string, p: string)
  {
    |p| <= |s| && s[..|p|] == p
  }

  /** `s` ends with `p`. */
  predicate EndsWith(s: string, p: string)
  {
    |p| <= |s| && s[|s| - |p|..] == p
  }

  /** `s.includes(p)`. */
  predicate Contains(s: string, p: string)
    decreases |s|
  {
    StartsWith(s, p) || (s != [] && Contains(s[1..], p))
  }

  /** A string contains each of its suffixes. */
  lemma {:induction false} ContainsSuffix(a: string, p: string)
    ensures Contains(a + p, p)
  {
    if a != [] {
      assert (a + p)[1..] == a[1..] + p;
      ContainsSuffix(a[1..], p);
    } else {
      assert (a + p)[..|p|] == p;
    }
  }
}
