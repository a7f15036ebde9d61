/**
 * The string operations the application uses, restricted to ASCII:
 * `trim` (ASCII whitespace only), `toLowerCase` (ASCII letters only) and `includes`.
 */
module Strings {

  /** The ASCII characters that `String.prototype.trim` removes. */
  predicate IsSpace(c: char) {
    c == ' ' || c == '\t' || c == '\n' || c == '\U{B}' || c == '\U{C}' || c == '\r'
  }

  predicate AllSpaces(s: string) {
    forall i :: 0 <= i < |s| ==> IsSpace(s[i])
  }

  /** Strips leading whitespace: the result is a suffix of `s`, what was dropped is whitespace. */
  function TrimStart(s: string): (r: string)
    ensures |r| <= |s| && r == s[|s| - |r|..]
    ensures forall i :: 0 <= i < |s| - |r| ==> IsSpace(s[i])
    ensures r != [] ==> !IsSpace(r[0])
    decreases |s|
  {
    if s != [] && IsSpace(s[0]) then
      var r := TrimStart(s[1..]);
      assert forall i :: 1 <= i < |s| ==> s[i] == s[1..][i - 1];
      r
    else s
  }

  /** Strips trailing whitespace: the result is a prefix of `s`, what was dropped is whitespace. */
  function TrimEnd(s: string): (r: string)
    ensures |r| <= |s| && r == s[..|r|]
    ensures forall i :: |r| <= i < |s| ==> IsSpace(s[i])
    ensures r != [] ==> !IsSpace(r[|r| - 1])
    decreases |s|
  {
    if s != [] && IsSpace(s[|s| - 1]) then
      var t := s[..|s| - 1];
      var r := TrimEnd(t);
      assert forall i :: 0 <= i < |t| ==> s[i] == t[i];
      r
    else s
  }

  /** `s.trim()`: neither end of the result is whitespace. */
  function Trim(s: string): (r: string)
    ensures r != [] ==> !IsSpace(r[0]) && !IsSpace(r[|r| - 1])
  {
    var t := TrimStart(s);
    assert t != [] ==> TrimEnd(t) == [] || TrimEnd(t)[0] == t[0];
    TrimEnd(t)
  }

  /** What `TrimStart` drops is whitespace. */
  lemma TrimStartDropsSpaces(s: string)
    ensures AllSpaces(s[..|s| - |TrimStart(s)|])
  {
    var prefix := s[..|s| - |TrimStart(s)|];
    forall k | 0 <= k < |prefix| ensures IsSpace(prefix[k]) {
      assert prefix[k] == s[k];
    }
  }

  /** What `TrimEnd` drops is whitespace. */
  lemma TrimEndDropsSpaces(t: string)
    ensures AllSpaces(t[|TrimEnd(t)|..])
  {
    var suffix := t[|TrimEnd(t)|..];
    forall k | 0 <= k < |suffix| ensures IsSpace(suffix[k]) {
      assert suffix[k] == t[|TrimEnd(t)| + k];
    }
  }

  /** `s.trim()` is the slice of `s` left after removing a whitespace prefix and a whitespace suffix. */
  lemma TrimIsSlice(s: string)
    ensures exists i, j :: 0 <= i <= j <= |s| && Trim(s) == s[i..j] && AllSpaces(s[..i]) && AllSpaces(s[j..])
  {
    var t := TrimStart(s);
    var r := TrimEnd(t);
    var i := |s| - |t|;
    var j := i + |r|;
    TrimStartDropsSpaces(s);
    TrimEndDropsSpaces(t);
    assert t == s[i..];
    assert r == s[i..j] by {
      assert r == t[..|r|];
    }
    assert s[j..] == t[|r|..];
    assert Trim(s) == r;
    assert 0 <= i <= j <= |s| && Trim(s) == s[i..j] && AllSpaces(s[..i]) && AllSpaces(s[j..]);
  }

  /** Dropping a whitespace prefix keeps every non-whitespace character. */
  lemma DropSpacesKeeps(s: string, n: nat, c: char)
    requires n <= |s| && !IsSpace(c)
    requires forall i :: 0 <= i < n ==> IsSpace(s[i])
    ensures c in s[n..] <==> c in s
  {
    assert s == s[..n] + s[n..];
  }

  /** Dropping a whitespace suffix keeps every non-whitespace character. */
  lemma TakeSpacesKeeps(s: string, n: nat, c: char)
    requires n <= |s| && !IsSpace(c)
    requires forall i :: n <= i < |s| ==> IsSpace(s[i])
    ensures c in s[..n] <==> c in s
  {
    assert s == s[..n] + s[n..];
  }

  lemma TrimStartKeeps(s: string, c: char)
    requires !IsSpace(c)
    ensures c in TrimStart(s) <==> c in s
  {
    var t := TrimStart(s);
    DropSpacesKeeps(s, |s| - |t|, c);
  }

  lemma TrimEndKeeps(s: string, c: char)
    requires !IsSpace(c)
    ensures c in TrimEnd(s) <==> c in s
  {
    var t := TrimEnd(s);
    TakeSpacesKeeps(s, |t|, c);
  }

  /** `trim` loses no character other than whitespace. */
  lemma TrimKeeps(s: string, c: char)
    requires !IsSpace(c)
    ensures c in Trim(s) <==> c in s
  {
    TrimStartKeeps(s, c);
    TrimEndKeeps(TrimStart(s), c);
  }

  /** A string with no whitespace at either end is its own `trim`. */
  lemma TrimUntrimmed(s: string)
    requires s != [] ==> !IsSpace(s[0]) && !IsSpace(s[|s| - 1])
    ensures Trim(s) == s
  {
  }

  lemma {:induction false} TrimStartSpaces(a: string, s: string)
    requires AllSpaces(a)
    ensures TrimStart(a + s) == TrimStart(s)
    decreases |a|
  {
    if a != [] {
      assert (a + s)[1..] == a[1..] + s;
      TrimStartSpaces(a[1..], s);
    } else {
      assert a + s == s;
    }
  }

  lemma {:induction false} TrimStartAppend(s: string, b: string)
    requires TrimStart(s) != []
    ensures TrimStart(s + b) == TrimStart(s) + b
    decreases |s|
  {
    assert s != [];
    assert (s + b)[0] == s[0];
    if IsSpace(s[0]) {
      assert (s + b)[1..] == s[1..] + b;
      TrimStartAppend(s[1..], b);
    }
  }

  lemma {:induction false} TrimEndSpaces(s: string, b: string)
    requires AllSpaces(b)
    ensures TrimEnd(s + b) == TrimEnd(s)
    decreases |b|
  {
    if b != [] {
      var sb := s + b;
      assert sb[|sb| - 1] == b[|b| - 1];
      assert sb[..|sb| - 1] == s + b[..|b| - 1];
      TrimEndSpaces(s, b[..|b| - 1]);
    } else {
      assert s + b == s;
    }
  }

  /** A string of whitespace trims to nothing. */
  lemma {:induction false} TrimStartOfSpaces(s: string)
    requires AllSpaces(s)
    ensures TrimStart(s) == []
    decreases |s|
  {
    if s != [] {
      var rest := s[1..];
      forall k | 0 <= k < |rest| ensures IsSpace(rest[k]) {
        assert rest[k] == s[k + 1];
      }
      TrimStartOfSpaces(rest);
    }
  }

  /** A string that is all whitespace stays so when whitespace is appended. */
  lemma TrimStartBlank(s: string, b: string)
    requires TrimStart(s) == [] && AllSpaces(b)
    ensures TrimStart(s + b) == []
  {
    var sb := s + b;
    forall i | 0 <= i < |sb| ensures IsSpace(sb[i]) {
      if i < |s| {
        assert sb[i] == s[i];
      } else {
        assert sb[i] == b[i - |s|];
      }
    }
    TrimStartOfSpaces(sb);
  }

  /** Whitespace padding on either side does not change `trim`. */
  lemma TrimPadded(a: string, s: string, b: string)
    requires AllSpaces(a) && AllSpaces(b)
    ensures Trim(a + s + b) == Trim(s)
  {
    assert a + s + b == a + (s + b);
    TrimStartSpaces(a, s + b);
    assert Trim(a + s + b) == TrimEnd(TrimStart(s + b));
    if TrimStart(s) != [] {
      TrimStartAppend(s, b);
      TrimEndSpaces(TrimStart(s), b);
    } else {
      TrimStartBlank(s, b);
    }
  }

  /** ASCII `toLowerCase` of one character. */
  function LowerChar(c: char): char {
    if 'A' <= c <= 'Z' then (c as int + 32) as char else c
  }

  /**
   * `s.toLowerCase()`, ASCII letters only: each upper-case letter becomes its
   * lower-case letter, no upper-case letter is left, and every other character is
   * kept where it was.
   */
  function Lower(s: string): (r: string)
    ensures |r| == |s|
    ensures forall i :: 0 <= i < |s| && 'A' <= s[i] <= 'Z' ==> r[i] == (s[i] as int + 32) as char
    ensures forall i :: 0 <= i < |r| ==> !('A' <= r[i] <= 'Z')
    ensures forall i :: 0 <= i < |s| && !('A' <= s[i] <= 'Z') ==> r[i] == s[i]
  {
    seq(|s|, i requires 0 <= i < |s| => LowerChar(s[i]))
  }

  /** Lower-casing twice is lower-casing once. */
  lemma LowerIdempotent(s: string)
    ensures Lower(Lower(s)) == Lower(s)
  {
    var r := Lower(s);
    assert forall i :: 0 <= i < |r| ==> Lower(r)[i] == r[i];
  }

  /** `sub` occurs in `s` starting at position `i`. */
  predicate OccursAt(s: string, sub: string, i: int) {
    0 <= i <= |s| - |sub| && s[i..i + |sub|] == sub
  }

  /** `s.includes(sub)`, scanning from the left. */
  function Includes(s: string, sub: string): (r: bool)
    ensures sub == [] ==> r
    ensures r ==> |sub| <= |s|
    decreases |s|
  {
    (|sub| <= |s| && s[..|sub|] == sub) || (s != [] && Includes(s[1..], sub))
  }

  /** An occurrence found by `Includes` is at some position. */
  lemma {:induction false} IncludesFound(s: string, sub: string)
    requires Includes(s, sub)
    ensures exists i :: OccursAt(s, sub, i)
    decreases |s|
  {
    if |sub| <= |s| && s[..|sub|] == sub {
      assert OccursAt(s, sub, 0);
    } else {
      IncludesFound(s[1..], sub);
      var i :| OccursAt(s[1..], sub, i);
      assert s[1..][i..i + |sub|] == s[i + 1..i + 1 + |sub|];
      assert OccursAt(s, sub, i + 1);
    }
  }

  /** An occurrence at any position is found by `Includes`. */
  lemma {:induction false} OccurrenceIncluded(s: string, sub: string, i: int)
    requires OccursAt(s, sub, i)
    ensures Includes(s, sub)
    decreases i
  {
    if i > 0 {
      assert s[1..][i - 1..i - 1 + |sub|] == s[i..i + |sub|];
      OccurrenceIncluded(s[1..], sub, i - 1);
    } else {
      assert s[..|sub|] == s[0..|sub|];
    }
  }

  lemma IncludesAt(s: string, sub: string)
    ensures Includes(s, sub) <==> exists i :: OccursAt(s, sub, i)
  {
    if Includes(s, sub) {
      IncludesFound(s, sub);
    }
    if i :| OccursAt(s, sub, i) {
      OccurrenceIncluded(s, sub, i);
    }
  }

  /** `s.includes(c)` for a one-character argument is membership. */
  lemma IncludesChar(s: string, c: char)
    ensures Includes(s, [c]) <==> c in s
  {
    IncludesAt(s, [c]);
    if c in s {
      var i :| 0 <= i < |s| && s[i] == c;
      assert OccursAt(s, [c], i);
    }
    if i :| OccursAt(s, [c], i) {
      assert s[i] == s[i..i + 1][0];
    }
  }

  /** Every string includes the empty string. */
  lemma IncludesEmpty(s: string)
    ensures Includes(s, "")
  {
    assert s[..0] == "";
  }
  /** The lines of `s`, split at every '\n'; a "\r\n" break leaves a trailing '\r' on
      the line before it. A string without a line break is a single line. */
  function SplitLines(s: string): (r: seq<string>)
    ensures |r| >= 1
    decreases |s|
  {
    if s == [] then [""]
    else
      var rest := SplitLines(s[1..]);
      if s[0] == '\n' then [""] + rest else [[s[0]] + rest[0]] + rest[1..]
  }

  /** Lines joined with '\n'. */
  function JoinLines(lines: seq<string>): string
    decreases |lines|
  {
    if lines == [] then ""
    else if |lines| == 1 then lines[0]
    else lines[0] + "\n" + JoinLines(lines[1..])
  }

  /** Joining the lines of `s` gives back `s`, and no line holds a line break. */
  lemma {:induction false} JoinSplit(s: string)
    ensures JoinLines(SplitLines(s)) == s
    ensures forall i :: 0 <= i < |SplitLines(s)| ==> '\n' !in SplitLines(s)[i]
    decreases |s|
  {
    if s != [] {
      var rest := SplitLines(s[1..]);
      JoinSplit(s[1..]);
      var r := SplitLines(s);
      if s[0] == '\n' {
        assert r[1..] == rest;
        assert r[0] == "";
      } else {
        assert r[1..] == rest[1..];
        assert r[0] == [s[0]] + rest[0];
        assert '\n' !in rest[0];
        assert forall i :: 1 <= i < |r| ==> r[i] == rest[i];
        if |rest| > 1 {
          assert JoinLines(rest) == rest[0] + "\n" + JoinLines(rest[1..]);
          assert JoinLines(r) == r[0] + "\n" + JoinLines(r[1..]);
        }
      }
    }
  }

  lemma {:induction false} SplitLinesOneLine(a: string)
    requires '\n' !in a
    ensures SplitLines(a) == [a]
    decreases |a|
  {
    if a != [] {
      SplitLinesOneLine(a[1..]);
      assert [a[0]] + a[1..] == a;
    }
  }

  lemma {:induction false} SplitLinesBreak(a: string, b: string)
    requires '\n' !in a
    ensures SplitLines(a + "\n" + b) == [a] + SplitLines(b)
    decreases |a|
  {
    var s := a + "\n" + b;
    if a == [] {
      assert s[0] == '\n' && s[1..] == b;
    } else {
      assert s[0] == a[0] && s[1..] == a[1..] + "\n" + b;
      SplitLinesBreak(a[1..], b);
      assert [a[0]] + a[1..] == a;
    }
  }

  /** Splitting undoes joining lines that hold no line break. */
  lemma {:induction false} SplitJoin(lines: seq<string>)
    requires |lines| >= 1
    requires forall i :: 0 <= i < |lines| ==> '\n' !in lines[i]
    ensures SplitLines(JoinLines(lines)) == lines
    decreases |lines|
  {
    if |lines| == 1 {
      SplitLinesOneLine(lines[0]);
    } else {
      SplitLinesBreak(lines[0], JoinLines(lines[1..]));
      SplitJoin(lines[1..]);
      assert lines == [lines[0]] + lines[1..];
    }
  }
}
