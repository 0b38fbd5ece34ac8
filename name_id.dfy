/**
 * Identifier derivation, `formatNameId` (figma2xliff.js:90-107): a
 * variable's slash-separated name becomes a translation-unit id. The
 * first segment is dropped; every other segment is trimmed, lower-cased,
 * stripped of punctuation, camel-cased at whitespace and stripped of the
 * remaining whitespace, and gets a lower-case first character; the
 * segments are joined with `_`.
 *
 * The regular expressions' `\w` and `[a-z]` are ASCII classes, and case
 * mapping is modelled on ASCII letters only.
 */
module NameId {
  import opened Text

  predicate IsUpper(c: char) { 'A' <= c <= 'Z' }

  predicate IsLower(c: char) { 'a' <= c <= 'z' }

  predicate IsDigit(c: char) { '0' <= c <= '9' }

  /** The regular-expression class `\w`: ASCII letters, digits and `_`. */
  predicate IsWordChar(c: char)
  {
    IsUpper(c) || IsLower(c) || IsDigit(c) || c == '_'
  }

  /** `toLowerCase()` of one character. */
  function ToLower(c: char): (d: char)
    ensures !IsUpper(d)
    ensures IsUpper(c) ==> IsLower(d)
    ensures !IsUpper(c) ==> d == c
  {
    if IsUpper(c) then (c as int + 32) as char else c
  }

  /** `toUpperCase()` of one character. */
  function ToUpper(c: char): (d: char)
    ensures IsLower(c) ==> IsUpper(d)
    ensures !IsLower(c) ==> d == c
  {
    if IsLower(c) then (c as int - 32) as char else c
  }

  /** `.toLowerCase()` (line 96). */
  function LowerCase(s: string): (r: string)
    ensures |r| == |s|
    ensures forall i :: 0 <= i < |s| ==> r[i] == ToLower(s[i])
  {
    seq(|s|, i requires 0 <= i < |s| => ToLower(s[i]))
  }

  /** `.replace(/[^\w\s]/g, '')` (line 97): keeps exactly the word and whitespace characters. */
  function StripPunctuation(s: string): (r: string)
    ensures forall c :: c in r <==> c in s && (IsWordChar(c) || IsSpace(c))
  {
    if s == [] then []
    else
      var rest := StripPunctuation(s[1..]);
      assert forall c :: c in s <==> c == s[0] || c in s[1..];
      if IsWordChar(s[0]) || IsSpace(s[0]) then [s[0]] + rest else rest
  }

  /**
   * `.replace(/\s+([a-z])/g, (_, c) => c.toUpperCase())` (line 98): a run
   * of whitespace followed by a lower-case letter becomes that letter in
   * upper case; any other run of whitespace is kept. Afterwards no
   * whitespace stands before a lower-case letter.
   */
  function CamelCase(s: string): (r: string)
    ensures (forall c :: c in s ==> IsWordChar(c) || IsSpace(c)) ==>
            (forall c :: c in r ==> IsWordChar(c) || IsSpace(c))
    ensures s != [] && !IsSpace(s[0]) ==> r != [] && r[0] == s[0]
    ensures forall i, j :: 0 <= i && j == i + 1 < |r| && IsSpace(r[i]) ==> !IsLower(r[j])
    decreases |s|
  {
    if s == [] then []
    else if !IsSpace(s[0]) then
      var rest := CamelCase(s[1..]);
      assert forall c :: c in s[1..] ==> c in s;
      [s[0]] + rest
    else
      var n := LeadingSpaces(s);
      if n < |s| && IsLower(s[n]) then
        var rest := CamelCase(s[n + 1..]);
        assert forall c :: c in s[n + 1..] ==> c in s;
        [ToUpper(s[n])] + rest
      else
        var rest := CamelCase(s[n..]);
        assert forall c :: c in s[n..] ==> c in s;
        assert forall c :: c in s[..n] ==> IsSpace(c);
        s[..n] + rest
  }

  /** `.replace(/\s+/g, '')` (line 99): keeps exactly the characters that are not whitespace. */
  function RemoveSpaces(s: string): (r: string)
    ensures forall c :: c in r <==> c in s && !IsSpace(c)
  {
    if s == [] then []
    else
      var rest := RemoveSpaces(s[1..]);
      assert forall c :: c in s <==> c == s[0] || c in s[1..];
      if IsSpace(s[0]) then rest else [s[0]] + rest
  }

  /**
   * A reference for line 98, defined position by position: a lower-case
   * letter right after a whitespace character is upper-cased; every other
   * character is kept.
   */
  function UpperAfterSpace(s: string): string
  {
    seq(|s|, i requires 0 <= i < |s| => if i > 0 && IsSpace(s[i - 1]) then ToUpper(s[i]) else s[i])
  }

  /** Line 97 on one character: it is kept exactly when it is a word or whitespace character. */
  lemma StripPunctuationChar(c: char)
    ensures StripPunctuation([c]) == if IsWordChar(c) || IsSpace(c) then [c] else []
  {
    assert [c][1..] == [];
  }

  /** Line 97 works piece by piece, so it keeps the order and number of the characters it keeps. */
  lemma {:induction false} StripPunctuationConcat(a: string, b: string)
    ensures StripPunctuation(a + b) == StripPunctuation(a) + StripPunctuation(b)
  {
    if a == [] {
      assert a + b == b;
    } else {
      assert (a + b)[0] == a[0] && (a + b)[1..] == a[1..] + b;
      StripPunctuationConcat(a[1..], b);
    }
  }

  /** Removing whitespace works piece by piece. */
  lemma {:induction false} RemoveSpacesConcat(a: string, b: string)
    ensures RemoveSpaces(a + b) == RemoveSpaces(a) + RemoveSpaces(b)
  {
    if a == [] {
      assert a + b == b;
    } else {
      assert (a + b)[0] == a[0] && (a + b)[1..] == a[1..] + b;
      RemoveSpacesConcat(a[1..], b);
    }
  }

  /** Whitespace alone is removed completely. */
  lemma {:induction false} RemoveSpacesAllSpace(w: string)
    requires AllSpace(w)
    ensures RemoveSpaces(w) == []
  {
    if w != [] {
      RemoveSpacesAllSpace(w[1..]);
    }
  }

  /**
   * The reference may be cut anywhere except between a whitespace
   * character and a lower-case letter.
   */
  lemma UpperAfterSpaceSplit(s: string, k: nat)
    requires 0 < k <= |s| && (k < |s| ==> !IsSpace(s[k - 1]) || !IsLower(s[k]))
    ensures UpperAfterSpace(s) == UpperAfterSpace(s[..k]) + UpperAfterSpace(s[k..])
  {
    var r, a, b := UpperAfterSpace(s), UpperAfterSpace(s[..k]), UpperAfterSpace(s[k..]);
    assert |r| == |a + b|;
    forall i | 0 <= i < |r| ensures r[i] == (a + b)[i] {
      if i >= k {
        assert b[i - k] == (if i - k > 0 && IsSpace(s[i - 1]) then ToUpper(s[i]) else s[i]);
      }
    }
  }

  /** Whitespace holds no lower-case letter, so the reference keeps it. */
  lemma UpperAfterSpaceAllSpace(w: string)
    requires AllSpace(w)
    ensures UpperAfterSpace(w) == w
  {
    forall i | 0 <= i < |w| ensures UpperAfterSpace(w)[i] == w[i] {
      assert IsSpace(w[i]);
    }
  }

  /** A character after whitespace is upper-cased by the reference. */
  lemma UpperAfterSpaceLast(w: string, c: char)
    requires w != [] && AllSpace(w)
    ensures UpperAfterSpace(w + [c]) == w + [ToUpper(c)]
  {
    var r := UpperAfterSpace(w + [c]);
    forall i | 0 <= i < |w| ensures r[i] == w[i] {
      assert IsSpace(w[i]);
    }
    assert IsSpace(w[|w| - 1]);
  }

  /** The first case of `CamelCaseUpperAfterSpace`: a leading character that is not whitespace. */
  lemma CamelCaseKeep(s: string)
    requires s != [] && !IsSpace(s[0])
    requires RemoveSpaces(CamelCase(s[1..])) == RemoveSpaces(UpperAfterSpace(s[1..]))
    ensures RemoveSpaces(CamelCase(s)) == RemoveSpaces(UpperAfterSpace(s))
  {
    UpperAfterSpaceSplit(s, 1);
    assert UpperAfterSpace(s[..1]) == [s[0]];
    RemoveSpacesConcat([s[0]], CamelCase(s[1..]));
    RemoveSpacesConcat([s[0]], UpperAfterSpace(s[1..]));
  }

  /** The second case: whitespace, then a lower-case letter at `n`. */
  lemma CamelCaseUpper(s: string, n: nat, camel: string, rest: string)
    requires 0 < n < |s| && AllSpace(s[..n]) && IsLower(s[n])
    requires camel == [ToUpper(s[n])] + rest
    requires RemoveSpaces(rest) == RemoveSpaces(UpperAfterSpace(s[n + 1..]))
    ensures RemoveSpaces(camel) == RemoveSpaces(UpperAfterSpace(s))
  {
    var w := s[..n];
    UpperAfterSpaceSplit(s, n + 1);
    assert s[..n + 1] == w + [s[n]];
    UpperAfterSpaceLast(w, s[n]);
    SpacesBeforeUpper(w, ToUpper(s[n]), rest, UpperAfterSpace(s[n + 1..]));
  }

  /** Whitespace before an upper-case letter disappears when whitespace is removed. */
  lemma SpacesBeforeUpper(w: string, u: char, x: string, y: string)
    requires AllSpace(w) && IsUpper(u) && RemoveSpaces(x) == RemoveSpaces(y)
    ensures RemoveSpaces([u] + x) == RemoveSpaces(w + [u] + y)
  {
    calc {
      RemoveSpaces(w + [u] + y);
      { RemoveSpacesConcat(w + [u], y); }
      RemoveSpaces(w + [u]) + RemoveSpaces(y);
      { RemoveSpacesConcat(w, [u]); RemoveSpacesAllSpace(w); }
      RemoveSpaces([u]) + RemoveSpaces(x);
      { RemoveSpacesConcat([u], x); }
      RemoveSpaces([u] + x);
    }
  }

  /** The third case: whitespace that is kept, up to `n`. */
  lemma CamelCaseSpaces(s: string, n: nat)
    requires 0 < n <= |s| && AllSpace(s[..n]) && (n < |s| ==> !IsLower(s[n]))
    requires CamelCase(s) == s[..n] + CamelCase(s[n..])
    requires RemoveSpaces(CamelCase(s[n..])) == RemoveSpaces(UpperAfterSpace(s[n..]))
    ensures RemoveSpaces(CamelCase(s)) == RemoveSpaces(UpperAfterSpace(s))
  {
    var w := s[..n];
    UpperAfterSpaceSplit(s, n);
    UpperAfterSpaceAllSpace(w);
    RemoveSpacesConcat(w, UpperAfterSpace(s[n..]));
    RemoveSpacesConcat(w, CamelCase(s[n..]));
    RemoveSpacesAllSpace(w);
  }

  /**
   * Camel-casing at whitespace (line 98) followed by the removal of the
   * remaining whitespace (line 99) is the reference followed by the same
   * removal: every lower-case letter that followed whitespace is
   * upper-cased, and nothing else changes but the whitespace.
   */
  lemma {:induction false} CamelCaseUpperAfterSpace(s: string)
    ensures RemoveSpaces(CamelCase(s)) == RemoveSpaces(UpperAfterSpace(s))
    decreases |s|
  {
    if s == [] {
    } else if !IsSpace(s[0]) {
      CamelCaseUpperAfterSpace(s[1..]);
      CamelCaseKeep(s);
    } else {
      var n := LeadingSpaces(s);
      if n < |s| && IsLower(s[n]) {
        CamelCaseUpperAfterSpace(s[n + 1..]);
        CamelCaseUpper(s, n, CamelCase(s), CamelCase(s[n + 1..]));
      } else {
        CamelCaseUpperAfterSpace(s[n..]);
        CamelCaseSpaces(s, n);
      }
    }
  }

  /** `cleaned.charAt(0).toLowerCase() + cleaned.slice(1)` (line 101). */
  function LowerFirst(s: string): (r: string)
    ensures |r| == |s|
    ensures r != [] ==> !IsUpper(r[0]) && r[0] == ToLower(s[0]) && r[1..] == s[1..]
  {
    if s == [] then [] else [ToLower(s[0])] + s[1..]
  }

  /**
   * One segment's transformation (lines 94-101): only word characters
   * remain, and the first of them is not an upper-case letter.
   */
  function FormatSegment(part: string): (r: string)
    ensures forall c :: c in r ==> IsWordChar(c)
    ensures r != [] ==> !IsUpper(r[0])
  {
    var stripped := StripPunctuation(LowerCase(Trim(part)));
    var camel := CamelCase(stripped);
    var cleaned := RemoveSpaces(camel);
    var r := LowerFirst(cleaned);
    if r == [] then r
    else
      assert r[0] == ToLower(cleaned[0]) && cleaned[0] in cleaned;
      assert forall c :: c in r[1..] ==> c in cleaned;
      assert forall c :: c in r ==> c == r[0] || c in r[1..];
      r
  }

  /** The transformation of each segment, in order (line 93). */
  function FormatSegments(parts: seq<string>): (r: seq<string>)
    ensures |r| == |parts|
    ensures forall i :: 0 <= i < |parts| ==> r[i] == FormatSegment(parts[i])
  {
    seq(|parts|, i requires 0 <= i < |parts| => FormatSegment(parts[i]))
  }

  /**
   * The parts the id is joined from: one per `/` in the name (every
   * segment after the first), each made of word characters and not
   * starting with an upper-case letter.
   */
  function IdParts(name: string): (parts: seq<string>)
    ensures |parts| == Count(name, '/')
    ensures forall i :: 0 <= i < |parts| ==>
              (forall c :: c in parts[i] ==> IsWordChar(c)) &&
              (parts[i] != [] ==> !IsUpper(parts[i][0]))
  {
    FormatSegments(Split(name, '/')[1..])
  }

  /** `formatNameId(name)` (lines 90-107): the id holds only ASCII letters, digits and `_`. */
  function FormatNameId(name: string): (id: string)
    ensures forall c :: c in id ==> IsWordChar(c)
  {
    var parts := IdParts(name);
    var id := Join(parts, '_');
    assert forall c :: c in id ==> IsWordChar(c) by {
      forall c | c in id ensures IsWordChar(c) {
        JoinChars(parts, '_', c);
      }
    }
    id
  }

  /** Names that differ only before the first `/` have the same id. */
  lemma FirstSegmentIgnored(a: string, b: string, rest: string)
    requires '/' !in a && '/' !in b
    ensures FormatNameId(a + "/" + rest) == FormatNameId(b + "/" + rest)
  {
    SplitAtFirst(a, '/', rest);
    SplitAtFirst(b, '/', rest);
    assert Split(a + "/" + rest, '/')[1..] == Split(rest, '/');
    assert Split(b + "/" + rest, '/')[1..] == Split(rest, '/');
  }

  /** A name without `/` has the empty id. */
  lemma WithoutSlashEmpty(name: string)
    requires '/' !in name
    ensures FormatNameId(name) == ""
  {
    CountAbsent(name, '/');
  }

  /** Whitespace is not a separator. */
  lemma SpaceNotSlash(w: string)
    requires AllSpace(w)
    ensures '/' !in w
  {
  }

  /** Whitespace appended to a segment does not change its transformation. */
  lemma FormatSegmentAppendSpace(part: string, w: string)
    requires AllSpace(w)
    ensures FormatSegment(part + w) == FormatSegment(part)
  {
    TrimEndAppend(part, w);
  }

  /** Trailing whitespace falls in the last segment, which is trimmed anyway. */
  lemma TrimEndId(name: string)
    ensures FormatNameId(TrimEnd(name)) == FormatNameId(name)
  {
    var e := TrimEnd(name);
    var w := name[|e|..];
    assert name == e + w;
    SpaceNotSlash(w);
    SplitAppend(e, '/', w);
    var p := Split(e, '/');
    var k := |p|;
    var long := Split(name, '/')[1..];
    var short := p[1..];
    assert |long| == |short|;
    forall i | 0 <= i < |short| ensures FormatSegment(long[i]) == FormatSegment(short[i]) {
      if i == |short| - 1 {
        assert long[i] == p[k - 1] + w;
        FormatSegmentAppendSpace(p[k - 1], w);
      } else {
        assert long[i] == short[i];
      }
    }
    assert FormatSegments(long) == FormatSegments(short);
  }

  /** Leading whitespace falls in the first segment, which is dropped. */
  lemma TrimStartId(name: string)
    ensures FormatNameId(TrimStart(name)) == FormatNameId(name)
  {
    var t := TrimStart(name);
    var v := name[..|name| - |t|];
    assert name == v + t;
    SpaceNotSlash(v);
    SplitPrepend(v, '/', t);
    assert Split(name, '/')[1..] == Split(t, '/')[1..];
  }

  /** Trimming the whole name does not change its id. */
  lemma FormatNameIdTrim(name: string)
    ensures FormatNameId(Trim(name)) == FormatNameId(name)
  {
    TrimEndId(name);
    TrimStartId(TrimEnd(name));
  }

  /** A string without whitespace at either end is its own trim. */
  lemma TrimUntouched(s: string)
    requires s != [] && !IsSpace(s[0]) && !IsSpace(s[|s| - 1])
    ensures Trim(s) == s
  {
    assert TrailingSpaces(s) == 0;
    assert TrimEnd(s) == s;
    assert LeadingSpaces(s) == 0;
  }

  /** Word and whitespace characters survive line 97 unchanged. */
  lemma {:induction false} StripPunctuationUntouched(s: string)
    requires forall i :: 0 <= i < |s| ==> IsWordChar(s[i]) || IsSpace(s[i])
    ensures StripPunctuation(s) == s
  {
    if s != [] {
      StripPunctuationUntouched(s[1..]);
    }
  }

  /** Lower-case letters are not whitespace. */
  lemma LowerNoSpace(s: string)
    requires forall i :: 0 <= i < |s| ==> IsLower(s[i])
    ensures forall i :: 0 <= i < |s| ==> !IsSpace(s[i])
  {
    forall i | 0 <= i < |s| ensures !IsSpace(s[i]) {
      var n := s[i] as int;
      assert 97 <= n <= 122;
    }
  }

  /** Line 98 leaves a string without whitespace alone. */
  lemma {:induction false} CamelCaseNoSpace(s: string)
    requires forall i :: 0 <= i < |s| ==> !IsSpace(s[i])
    ensures CamelCase(s) == s
  {
    if s != [] {
      CamelCaseNoSpace(s[1..]);
    }
  }

  /** Line 98 passes over a leading word without whitespace. */
  lemma {:induction false} CamelCaseWord(a: string, b: string)
    requires forall i :: 0 <= i < |a| ==> !IsSpace(a[i])
    ensures CamelCase(a + b) == a + CamelCase(b)
  {
    if a == [] {
      assert a + b == b;
    } else {
      HeadTail(a, b);
      CamelCaseCons(a[0], a[1..] + b);
      CamelCaseWord(a[1..], b);
      HeadTail(a, CamelCase(b));
    }
  }

  /** A non-empty string is its first character followed by the rest. */
  lemma HeadTail(a: string, q: string)
    requires a != []
    ensures a + q == [a[0]] + (a[1..] + q)
  {
    assert a == [a[0]] + a[1..];
  }

  /** Line 98 keeps a leading character that is not whitespace. */
  lemma CamelCaseCons(x: char, t: string)
    requires !IsSpace(x)
    ensures CamelCase([x] + t) == [x] + CamelCase(t)
  {
    assert ([x] + t)[1..] == t;
  }

  /** Line 99 leaves a string without whitespace alone. */
  lemma {:induction false} RemoveSpacesNoSpace(s: string)
    requires forall i :: 0 <= i < |s| ==> !IsSpace(s[i])
    ensures RemoveSpaces(s) == s
  {
    if s != [] {
      RemoveSpacesNoSpace(s[1..]);
    }
  }

  /** A space before a lower-case letter: line 98 upper-cases the letter and drops the space. */
  lemma CamelCaseCapital(l: char, b: string)
    requires IsLower(l)
    requires forall i :: 0 <= i < |b| ==> !IsSpace(b[i])
    ensures CamelCase([' ', l] + b) == [ToUpper(l)] + b
  {
    var t := [' ', l] + b;
    assert t[1..][0] == l;
    assert LeadingSpaces(t[1..]) == 0;
    assert LeadingSpaces(t) == 1;
    assert t[2..] == b;
    CamelCaseNoSpace(b);
  }

  /** Lines 95-96 on two capitalised words: the words are lower-cased. */
  lemma LowerTwoWords(part: string, a: string, b: string, c: char)
    requires |a| > 0 && |b| > 0 && IsUpper(a[0]) && IsUpper(c)
    requires forall i :: 0 < i < |a| ==> IsLower(a[i])
    requires forall i :: 0 <= i < |b| ==> IsLower(b[i])
    requires part == a + [' ', c] + b
    ensures LowerCase(Trim(part)) == [ToLower(a[0])] + a[1..] + [' ', ToLower(c)] + b
  {
    var lower := [ToLower(a[0])] + a[1..] + [' ', ToLower(c)] + b;
    TrimUntouched(part);
    assert |LowerCase(part)| == |lower|;
    forall i | 0 <= i < |part| ensures LowerCase(part)[i] == lower[i] {
      if i < |a| {
        assert part[i] == a[i];
      } else if i > |a| + 1 {
        assert part[i] == b[i - |a| - 2];
      }
    }
  }

  /** Two lower-case words around a space hold only word and whitespace characters. */
  lemma TwoWordsChars(la: string, l: char, b: string)
    requires forall i :: 0 <= i < |la| ==> IsLower(la[i])
    requires forall i :: 0 <= i < |b| ==> IsLower(b[i])
    requires IsLower(l)
    ensures forall i :: 0 <= i < |la + [' ', l] + b| ==>
              IsWordChar((la + [' ', l] + b)[i]) || IsSpace((la + [' ', l] + b)[i])
  {
    var t := la + [' ', l] + b;
    forall i | 0 <= i < |t| ensures IsWordChar(t[i]) || IsSpace(t[i]) {
      if i < |la| {
        assert t[i] == la[i];
      } else if i > |la| + 1 {
        assert t[i] == b[i - |la| - 2];
      }
    }
  }

  /** Two lower-case words joined by a letter hold no whitespace. */
  lemma OneWordNoSpace(la: string, u: char, b: string)
    requires forall i :: 0 <= i < |la| ==> IsLower(la[i])
    requires forall i :: 0 <= i < |b| ==> IsLower(b[i])
    requires IsUpper(u)
    ensures forall i :: 0 <= i < |la + [u] + b| ==> !IsSpace((la + [u] + b)[i])
  {
    var w := la + [u] + b;
    forall i | 0 <= i < |w| ensures !IsSpace(w[i]) {
      if i < |la| {
        assert w[i] == la[i];
      } else if i > |la| {
        assert w[i] == b[i - |la| - 1];
      }
    }
  }

  /** Lines 98-99 on two lower-case words: the space goes and the second word is capitalised. */
  lemma JoinTwoWords(la: string, l: char, b: string)
    requires forall i :: 0 <= i < |la| ==> IsLower(la[i])
    requires forall i :: 0 <= i < |b| ==> IsLower(b[i])
    requires IsLower(l)
    ensures RemoveSpaces(CamelCase(la + [' ', l] + b)) == la + [ToUpper(l)] + b
  {
    var t := la + [' ', l] + b;
    var w := la + [ToUpper(l)] + b;
    assert CamelCase(t) == w by {
      CamelCaseTwoWords(la, l, b);
    }
    assert RemoveSpaces(w) == w by {
      OneWordNoSpace(la, ToUpper(l), b);
      RemoveSpacesNoSpace(w);
    }
  }

  /** Line 98 on two lower-case words around a space. */
  lemma CamelCaseTwoWords(la: string, l: char, b: string)
    requires forall i :: 0 <= i < |la| ==> IsLower(la[i])
    requires forall i :: 0 <= i < |b| ==> IsLower(b[i])
    requires IsLower(l)
    ensures CamelCase(la + [' ', l] + b) == la + [ToUpper(l)] + b
  {
    var tail := [' ', l] + b;
    assert la + [' ', l] + b == la + tail;
    assert la + [ToUpper(l)] + b == la + ([ToUpper(l)] + b);
    assert CamelCase(la + tail) == la + CamelCase(tail) by {
      LowerNoSpace(la);
      CamelCaseWord(la, tail);
    }
    assert CamelCase(tail) == [ToUpper(l)] + b by {
      LowerNoSpace(b);
      CamelCaseCapital(l, b);
    }
  }

  /**
   * Lines 98-101 on a segment whose cleaned text is two lower-case words:
   * the words are joined and the second is capitalised.
   */
  lemma FormatSegmentJoin(part: string, la: string, l: char, b: string)
    requires |la| > 0 && IsLower(l)
    requires forall i :: 0 <= i < |la| ==> IsLower(la[i])
    requires forall i :: 0 <= i < |b| ==> IsLower(b[i])
    requires StripPunctuation(LowerCase(Trim(part))) == la + [' ', l] + b
    ensures FormatSegment(part) == la + [ToUpper(l)] + b
  {
    var w := la + [ToUpper(l)] + b;
    JoinTwoWords(la, l, b);
    assert w[0] == la[0] && IsLower(w[0]);
    assert LowerFirst(w) == w;
  }

  /** Two capitalised words separated by one space become one camel-cased word. */
  lemma FormatSegmentTwoWords(part: string, a: string, b: string, c: char, r: string)
    requires |a| > 0 && |b| > 0 && IsUpper(a[0]) && IsUpper(c)
    requires forall i :: 0 < i < |a| ==> IsLower(a[i])
    requires forall i :: 0 <= i < |b| ==> IsLower(b[i])
    requires part == a + [' ', c] + b
    requires r == [ToLower(a[0])] + a[1..] + [c] + b
    ensures FormatSegment(part) == r
  {
    var la := [ToLower(a[0])] + a[1..];
    assert forall i :: 0 <= i < |la| ==> IsLower(la[i]);
    var t := la + [' ', ToLower(c)] + b;
    assert LowerCase(Trim(part)) == t by {
      LowerTwoWords(part, a, b, c);
      assert [ToLower(a[0])] + a[1..] + [' ', ToLower(c)] + b == t;
    }
    assert StripPunctuation(t) == t by {
      TwoWordsChars(la, ToLower(c), b);
      StripPunctuationUntouched(t);
    }
    FormatSegmentJoin(part, la, ToLower(c), b);
    assert ToUpper(ToLower(c)) == c;
  }

  /** A character line 97 removes. */
  predicate IsPunctuation(c: char)
  {
    !IsWordChar(c) && !IsSpace(c)
  }

  /** Line 97 drops a punctuation character and keeps what is on either side of it. */
  lemma StripDrop(x: string, p: char, y: string)
    requires IsPunctuation(p)
    ensures StripPunctuation(x + [p] + y) == StripPunctuation(x) + StripPunctuation(y)
  {
    StripPunctuationConcat(x + [p], y);
    StripPunctuationConcat(x, [p]);
    StripPunctuationChar(p);
    assert StripPunctuation(x) + [] == StripPunctuation(x);
  }

  /** Line 97 keeps lower-case words and spaces untouched. */
  lemma StripWords(la: string, l: char, b: string)
    requires forall i :: 0 <= i < |la| ==> IsLower(la[i])
    requires forall i :: 0 <= i < |b| ==> IsLower(b[i])
    requires IsLower(l)
    ensures StripPunctuation(la) == la
    ensures StripPunctuation([' ', l] + b) == [' ', l] + b
  {
    StripPunctuationUntouched(la);
    TwoWordsChars([], l, b);
    assert [] + [' ', l] + b == [' ', l] + b;
    StripPunctuationUntouched([' ', l] + b);
  }

  /** Line 97 on two pieces it keeps, each followed by punctuation: only the pieces remain. */
  lemma StripTwoPieces(x: string, p: char, y: string, q: char)
    requires IsPunctuation(p) && IsPunctuation(q)
    requires StripPunctuation(x) == x && StripPunctuation(y) == y
    ensures StripPunctuation(x + [p] + (y + [q])) == x + y
  {
    assert StripPunctuation(y + [q]) == y by {
      StripPunctuationConcat(y, [q]);
      StripPunctuationChar(q);
    }
    StripDrop(x, p, y + [q]);
  }

  /** Lines 95-96 on two capitalised words with punctuation after each: the words are lower-cased. */
  lemma LowerPunctuated(part: string, a: string, p: char, c: char, b: string, q: char)
    requires |a| > 0 && IsUpper(a[0]) && IsUpper(c)
    requires forall i :: 0 < i < |a| ==> IsLower(a[i])
    requires forall i :: 0 <= i < |b| ==> IsLower(b[i])
    requires IsPunctuation(p) && IsPunctuation(q)
    requires part == a + [p, ' ', c] + b + [q]
    ensures LowerCase(Trim(part)) == [ToLower(a[0])] + a[1..] + [p, ' ', ToLower(c)] + b + [q]
  {
    var lower := [ToLower(a[0])] + a[1..] + [p, ' ', ToLower(c)] + b + [q];
    TrimUntouched(part);
    assert |LowerCase(part)| == |lower|;
    forall i | 0 <= i < |part| ensures LowerCase(part)[i] == lower[i] {
      if i < |a| {
        assert part[i] == a[i];
      } else if |a| + 2 < i < |part| - 1 {
        assert part[i] == b[i - |a| - 3];
      }
    }
  }

  /**
   * Two capitalised words, each followed by punctuation, become one
   * camel-cased word: the punctuation goes before the words are joined.
   */
  lemma FormatSegmentPunctuated(part: string, a: string, p: char, c: char, b: string, q: char, r: string)
    requires |a| > 0 && IsUpper(a[0]) && IsUpper(c)
    requires forall i :: 0 < i < |a| ==> IsLower(a[i])
    requires forall i :: 0 <= i < |b| ==> IsLower(b[i])
    requires IsPunctuation(p) && IsPunctuation(q)
    requires part == a + [p, ' ', c] + b + [q]
    requires r == [ToLower(a[0])] + a[1..] + [c] + b
    ensures FormatSegment(part) == r
  {
    var la := [ToLower(a[0])] + a[1..];
    assert forall i :: 0 <= i < |la| ==> IsLower(la[i]);
    var y := [' ', ToLower(c)] + b;
    assert StripPunctuation(LowerCase(Trim(part))) == la + y by {
      LowerPunctuated(part, a, p, c, b, q);
      assert [ToLower(a[0])] + a[1..] + [p, ' ', ToLower(c)] + b + [q] == la + [p] + (y + [q]);
      StripWords(la, ToLower(c), b);
      StripTwoPieces(la, p, y, q);
    }
    assert la + y == la + [' ', ToLower(c)] + b;
    FormatSegmentJoin(part, la, ToLower(c), b);
    assert ToUpper(ToLower(c)) == c;
  }

  /** A name with one separator has the piece after it as its only part. */
  lemma IdPartsTwo(a: string, b: string)
    requires '/' !in a && '/' !in b
    ensures IdParts(a + ['/'] + b) == [FormatSegment(b)]
  {
    SplitAtFirst(a, '/', b);
    SplitNoSeparator(b, '/');
    assert Split(a + ['/'] + b, '/')[1..] == [b];
  }

  /** A name with two separators has the last two pieces as its parts. */
  lemma IdPartsThree(a: string, b: string, c: string)
    requires '/' !in a && '/' !in b && '/' !in c
    ensures IdParts(a + ['/'] + b + ['/'] + c) == [FormatSegment(b), FormatSegment(c)]
  {
    assert a + ['/'] + b + ['/'] + c == a + ['/'] + (b + ['/'] + c);
    SplitAtFirst(a, '/', b + ['/'] + c);
    SplitAtFirst(b, '/', c);
    SplitNoSeparator(c, '/');
    assert Split(a + ['/'] + b + ['/'] + c, '/')[1..] == [b, c];
  }

  /** The segments of the worked example. */
  lemma IdPartsExample(name: string)
    requires name == "Category/Section Title/Field Name"
    ensures IdParts(name) == [FormatSegment("Section Title"), FormatSegment("Field Name")]
  {
    var a, b, c := "Category", "Section Title", "Field Name";
    assert name == a + ['/'] + b + ['/'] + c by {}
    assert '/' !in a by {}
    assert '/' !in b by {}
    assert '/' !in c by {}
    IdPartsThree(a, b, c);
  }

  /** `Section Title` becomes `sectionTitle`. */
  lemma SectionTitleExample()
    ensures FormatSegment("Section Title") == "sectionTitle"
  {
    var a, b := "Section", "itle";
    assert "Section Title" == a + [' ', 'T'] + b by {}
    assert "sectionTitle" == [ToLower(a[0])] + a[1..] + ['T'] + b by {}
    assert forall i :: 0 < i < |a| ==> IsLower(a[i]) by {}
    assert forall i :: 0 <= i < |b| ==> IsLower(b[i]) by {}
    FormatSegmentTwoWords("Section Title", a, b, 'T', "sectionTitle");
  }

  /** `Field Name` becomes `fieldName`. */
  lemma FieldNameExample()
    ensures FormatSegment("Field Name") == "fieldName"
  {
    var a, b := "Field", "ame";
    assert "Field Name" == a + [' ', 'N'] + b by {}
    assert "fieldName" == [ToLower(a[0])] + a[1..] + ['N'] + b by {}
    assert forall i :: 0 < i < |a| ==> IsLower(a[i]) by {}
    assert forall i :: 0 <= i < |b| ==> IsLower(b[i]) by {}
    FormatSegmentTwoWords("Field Name", a, b, 'N', "fieldName");
  }

  /** A name with two parts has them joined with `_` as its id. */
  lemma FormatNameIdTwoParts(name: string, x: string, y: string)
    requires IdParts(name) == [x, y]
    ensures FormatNameId(name) == x + ['_'] + y
  {
    assert [x, y][1..] == [y];
    assert Join([y], '_') == y;
    assert Join([x, y], '_') == x + ['_'] + y;
  }

  /** A worked example: `Category/Section Title/Field Name` gives `sectionTitle_fieldName`. */
  lemma FormatNameIdExample(name: string)
    requires name == "Category/Section Title/Field Name"
    ensures FormatNameId(name) == "sectionTitle" + "_" + "fieldName"
  {
    var x, y := "sectionTitle", "fieldName";
    assert FormatNameId(name) == x + ['_'] + y by {
      assert IdParts(name) == [x, y] by {
        IdPartsExample(name);
        SectionTitleExample();
        FieldNameExample();
      }
      FormatNameIdTwoParts(name, x, y);
    }
  }

  /** `Hello, World!` becomes `helloWorld`: the comma and the exclamation mark go. */
  lemma HelloWorldExample()
    ensures FormatSegment("Hello, World!") == "hello" + "World"
  {
    var a, b := "Hello", "orld";
    assert "Hello, World!" == a + [',', ' ', 'W'] + b + ['!'] by {}
    assert "hello" + "World" == [ToLower(a[0])] + a[1..] + ['W'] + b by {}
    assert forall i :: 0 < i < |a| ==> IsLower(a[i]) by {}
    assert forall i :: 0 <= i < |b| ==> IsLower(b[i]) by {}
    FormatSegmentPunctuated("Hello, World!", a, ',', 'W', b, '!', "hello" + "World");
  }

  /** A name with one part has that part as its id. */
  lemma FormatNameIdOnePart(name: string, x: string)
    requires IdParts(name) == [x]
    ensures FormatNameId(name) == x
  {
    assert Join([x], '_') == x;
  }

  /** A worked example with punctuation: `Cat/Hello, World!` gives `helloWorld`. */
  lemma FormatNameIdPunctuatedExample(name: string)
    requires name == "Cat/Hello, World!"
    ensures FormatNameId(name) == "hello" + "World"
  {
    var a, b := "Cat", "Hello, World!";
    assert IdParts(name) == ["hello" + "World"] by {
      assert name == a + ['/'] + b by {}
      assert '/' !in a by {}
      assert '/' !in b by {}
      IdPartsTwo(a, b);
      HelloWorldExample();
    }
    FormatNameIdOnePart(name, "hello" + "World");
  }
}
