/**
 * The parts of Go's `strings` and `unicode` packages that the token parser uses:
 * `strings.TrimSpace`, `strings.ToLower` and splitting on a one-character separator.
 */
module GoStrings {
  import opened Sequences

  /** unicode.IsSpace: the characters with the Unicode White_Space property. */
  predicate IsSpace(c: char) {
    || c == ' ' || c == '\t' || c == '\n' || c == '\U{000B}' || c == '\U{000C}' || c == '\r'
    || c == '\U{0085}' || c == '\U{00A0}' || c == '\U{1680}'
    || ('\U{2000}' <= c <= '\U{200A}')
    || c == '\U{2028}' || c == '\U{2029}' || c == '\U{202F}' || c == '\U{205F}' || c == '\U{3000}'
  }

  /** Strips the leading white space. */
  function TrimLeft(s: string): string {
    if s != [] && IsSpace(s[0]) then TrimLeft(s[1..]) else s
  }

  /** TrimLeft strips the leading white space and nothing else. */
  lemma {:induction false} TrimLeftShape(s: string)
    ensures |TrimLeft(s)| <= |s| && TrimLeft(s) == s[|s| - |TrimLeft(s)|..]
    ensures forall k :: 0 <= k < |s| - |TrimLeft(s)| ==> IsSpace(s[k])
    ensures TrimLeft(s) == [] || !IsSpace(TrimLeft(s)[0])
    decreases |s|
  {
    if s != [] && IsSpace(s[0]) {
      TrimLeftShape(s[1..]);
    }
  }

  /** Strips the trailing white space. */
  function TrimRight(s: string): string {
    if s != [] && IsSpace(s[|s| - 1]) then TrimRight(s[..|s| - 1]) else s
  }

  /** TrimRight strips the trailing white space and nothing else. */
  lemma {:induction false} TrimRightShape(s: string)
    ensures |TrimRight(s)| <= |s| && TrimRight(s) == s[..|TrimRight(s)|]
    ensures forall k :: |TrimRight(s)| <= k < |s| ==> IsSpace(s[k])
    ensures TrimRight(s) == [] || !IsSpace(TrimRight(s)[|TrimRight(s)| - 1])
    decreases |s|
  {
    if s != [] && IsSpace(s[|s| - 1]) {
      TrimRightShape(s[..|s| - 1]);
    }
  }

  /** strings.TrimSpace: the leading and the trailing white space removed. */
  function TrimSpace(s: string): string {
    TrimRight(TrimLeft(s))
  }

  /** A trimmed string starts and ends with a non-space, and is empty exactly when `s` is blank. */
  lemma TrimSpaceShape(s: string)
    ensures var r := TrimSpace(s); r == [] || (!IsSpace(r[0]) && !IsSpace(r[|r| - 1]))
    ensures TrimSpace(s) == [] <==> forall k :: 0 <= k < |s| ==> IsSpace(s[k])
  {
    var left := TrimLeft(s);
    TrimLeftShape(s);
    TrimRightShape(left);
    var r := TrimRight(left);
    assert r != [] ==> r[0] == left[0];
    assert r == [] ==> left == [];
  }

  /**
   * unicode.ToLower, for the characters it maps onto ASCII: 'A' to 'Z', U+0130 (capital I with
   * dot above, which Go lowers to 'i') and U+212A (the Kelvin sign, which Go lowers to 'k').
   * Every other character is left as it is.
   */
  function LowerChar(c: char): (d: char)
    ensures 'A' <= c <= 'Z' ==> d as int == c as int + 32
    ensures c == '\U{0130}' ==> d == 'i'
    ensures c == '\U{212A}' ==> d == 'k'
    ensures !('A' <= c <= 'Z') && c != '\U{0130}' && c != '\U{212A}' ==> d == c
    ensures !('A' <= d <= 'Z')
    ensures IsSpace(d) <==> IsSpace(c)
  {
    if 'A' <= c <= 'Z' then (c as int + 32) as char
    else if c == '\U{0130}' then 'i'
    else if c == '\U{212A}' then 'k'
    else c
  }

  /** A string that lowering leaves as it is. */
  predicate IsLowered(s: string) {
    forall k :: 0 <= k < |s| ==> LowerChar(s[k]) == s[k]
  }

  lemma LowerCharIdempotent(c: char)
    ensures LowerChar(LowerChar(c)) == LowerChar(c)
  {
  }

  /** strings.ToLower: every character lowered, in place. */
  function ToLower(s: string): string {
    if s == [] then [] else [LowerChar(s[0])] + ToLower(s[1..])
  }

  /** ToLower keeps the length, lowers each character where it stands, and is lowercase. */
  lemma {:induction false} ToLowerShape(s: string)
    ensures |ToLower(s)| == |s|
    ensures forall k :: 0 <= k < |s| ==> ToLower(s)[k] == LowerChar(s[k])
    ensures IsLowered(ToLower(s))
    decreases |s|
  {
    if s != [] {
      ToLowerShape(s[1..]);
      LowerCharIdempotent(s[0]);
    }
  }

  /** Two characters that are equal, or the same ASCII letter in different case. */
  predicate SameLetterIgnoringCase(a: char, b: char) {
    || a == b
    || ('A' <= a <= 'Z' && b as int == a as int + 32)
    || ('A' <= b <= 'Z' && a as int == b as int + 32)
  }

  /** Two strings that differ at most in the ASCII case of their letters. */
  predicate SameIgnoringCase(s: string, t: string) {
    |s| == |t| && forall k :: 0 <= k < |s| ==> SameLetterIgnoringCase(s[k], t[k])
  }

  /** Characters that differ only in ASCII case lower alike, and neither or both are white space. */
  lemma LowerCharIgnoresCase(a: char, b: char)
    requires SameLetterIgnoringCase(a, b)
    ensures LowerChar(a) == LowerChar(b)
    ensures IsSpace(a) <==> IsSpace(b)
  {
  }

  /** Trimming the front of two strings that differ only in case removes the same number of characters. */
  lemma {:induction false} TrimLeftIgnoresCase(s: string, t: string)
    requires SameIgnoringCase(s, t)
    ensures SameIgnoringCase(TrimLeft(s), TrimLeft(t))
    decreases |s|
  {
    if s != [] {
      LowerCharIgnoresCase(s[0], t[0]);
      if IsSpace(s[0]) {
        assert SameIgnoringCase(s[1..], t[1..]) by {
          forall k | 0 <= k < |s| - 1 ensures SameLetterIgnoringCase(s[1..][k], t[1..][k]) {
            assert s[1..][k] == s[k + 1] && t[1..][k] == t[k + 1];
          }
        }
        TrimLeftIgnoresCase(s[1..], t[1..]);
      }
    }
  }

  /** Trimming the back of two strings that differ only in case removes the same number of characters. */
  lemma {:induction false} TrimRightIgnoresCase(s: string, t: string)
    requires SameIgnoringCase(s, t)
    ensures SameIgnoringCase(TrimRight(s), TrimRight(t))
    decreases |s|
  {
    if s != [] {
      LowerCharIgnoresCase(s[|s| - 1], t[|t| - 1]);
      if IsSpace(s[|s| - 1]) {
        var s', t' := s[..|s| - 1], t[..|t| - 1];
        assert SameIgnoringCase(s', t') by {
          forall k | 0 <= k < |s'| ensures SameLetterIgnoringCase(s'[k], t'[k]) {
            assert s'[k] == s[k] && t'[k] == t[k];
          }
        }
        TrimRightIgnoresCase(s', t');
      }
    }
  }

  /** strings.TrimSpace treats two strings that differ only in case alike. */
  lemma TrimSpaceIgnoresCase(s: string, t: string)
    requires SameIgnoringCase(s, t)
    ensures SameIgnoringCase(TrimSpace(s), TrimSpace(t))
  {
    TrimLeftIgnoresCase(s, t);
    TrimRightIgnoresCase(TrimLeft(s), TrimLeft(t));
  }

  /** strings.ToLower gives the same string for two strings that differ only in case. */
  lemma {:induction false} ToLowerIgnoresCase(s: string, t: string)
    requires SameIgnoringCase(s, t)
    ensures ToLower(s) == ToLower(t)
    decreases |s|
  {
    if s != [] {
      LowerCharIgnoresCase(s[0], t[0]);
      assert SameIgnoringCase(s[1..], t[1..]) by {
        forall k | 0 <= k < |s| - 1 ensures SameLetterIgnoringCase(s[1..][k], t[1..][k]) {
          assert s[1..][k] == s[k + 1] && t[1..][k] == t[k + 1];
        }
      }
      ToLowerIgnoresCase(s[1..], t[1..]);
    }
  }

  /** The inverse of Split: the parts with the separator put back between them. */
  function Join(parts: seq<string>, sep: char): string
    requires |parts| >= 1
  {
    if |parts| == 1 then parts[0] else parts[0] + [sep] + Join(parts[1..], sep)
  }

  /**
   * strings.Split (and strings.SplitSeq) with a one-character separator: the maximal
   * separator-free pieces of `s`, left to right. The empty string gives one empty part.
   */
  function Split(s: string, sep: char): (parts: seq<string>)
    ensures |parts| >= 1
  {
    if s == [] then [[]]
    else
      var rest := Split(s[1..], sep);
      if s[0] == sep then [[]] + rest else [[s[0]] + rest[0]] + rest[1..]
  }

  /** What Split does with the first character. */
  lemma SplitCons(c: char, t: string, sep: char)
    ensures Split([c] + t, sep) ==
              if c == sep then [[]] + Split(t, sep) else [[c] + Split(t, sep)[0]] + Split(t, sep)[1..]
  {
    assert ([c] + t)[1..] == t;
  }

  /** No part of a split holds the separator. */
  lemma {:induction false} SplitPartsFree(s: string, sep: char)
    ensures forall i :: 0 <= i < |Split(s, sep)| ==> sep !in Split(s, sep)[i]
    decreases |s|
  {
    if s != [] {
      var c, t := s[0], s[1..];
      SplitFirst(s, []);
      SplitCons(c, t, sep);
      SplitPartsFree(t, sep);
      var rest := Split(t, sep);
      if c != sep {
        assert sep !in [c] + rest[0];
      }
    }
  }

  /** Joining the parts of a split with the separator gives back the string. */
  lemma {:induction false} JoinOfSplit(s: string, sep: char)
    ensures Join(Split(s, sep), sep) == s
    decreases |s|
  {
    if s != [] {
      var c, t := s[0], s[1..];
      SplitFirst(s, []);
      SplitCons(c, t, sep);
      var rest := Split(t, sep);
      JoinOfSplit(t, sep);
      if c == sep {
        assert s == [] + [sep] + Join(rest, sep);
      } else {
        var parts := [[c] + rest[0]] + rest[1..];
        assert parts[1..] == rest[1..];
        assert Join(parts, sep) == [c] + Join(rest, sep);
      }
    }
  }

  /** Split cuts at every separator and nowhere else: no part holds one, and joining restores `s`. */
  lemma SplitJoin(s: string, sep: char)
    ensures forall i :: 0 <= i < |Split(s, sep)| ==> sep !in Split(s, sep)[i]
    ensures Join(Split(s, sep), sep) == s
  {
    SplitPartsFree(s, sep);
    JoinOfSplit(s, sep);
  }

  /** A string without the separator is one part. */
  lemma {:induction false} SplitWithoutSeparator(s: string, sep: char)
    requires sep !in s
    ensures Split(s, sep) == [s]
    decreases |s|
  {
    if s != [] {
      SplitFirst(s, []);
      SplitCons(s[0], s[1..], sep);
      assert sep !in s[1..];
      SplitWithoutSeparator(s[1..], sep);
    }
  }

  /** Splitting two strings joined by the separator splits each of them. */
  lemma {:induction false} SplitAround(a: string, b: string, sep: char)
    ensures Split(a + [sep] + b, sep) == Split(a, sep) + Split(b, sep)
    decreases |a|
  {
    var m := [sep] + b;
    AppendAssoc(a, [sep], b);
    if a == [] {
      TakeAll(m);
      SplitCons(sep, b, sep);
    } else {
      var c, t := a[0], a[1..];
      SplitFirst(a, m);
      AppendAssoc(t, [sep], b);
      SplitAround(t, b, sep);
      SplitCons(c, t + m, sep);
      SplitCons(c, t, sep);
      var r, q := Split(t, sep), Split(b, sep);
      if c == sep {
        ConsAppend([], r, q);
      } else {
        HeadTailAppend(r, q);
        ConsAppend([c] + r[0], r[1..], q);
      }
    }
  }

  /** Split undoes Join for parts that hold no separator: together with SplitJoin, the two are inverses. */
  lemma {:induction false} JoinSplit(parts: seq<string>, sep: char)
    requires |parts| >= 1
    requires forall i :: 0 <= i < |parts| ==> sep !in parts[i]
    ensures Split(Join(parts, sep), sep) == parts
    decreases |parts|
  {
    SplitWithoutSeparator(parts[0], sep);
    if |parts| > 1 {
      var rest := parts[1..];
      assert forall i :: 0 <= i < |rest| ==> sep !in rest[i] by {
        forall i | 0 <= i < |rest| ensures sep !in rest[i] {
          assert rest[i] == parts[i + 1];
        }
      }
      JoinSplit(rest, sep);
      SplitAround(parts[0], Join(rest, sep), sep);
      SplitFirst(parts, []);
    }
  }
}
