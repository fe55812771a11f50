/**
 * The handful of Python `str` operations the cleaner relies on:
 * `s.replace(c, '')`, `s.upper()`, `s.lower()` and the whitespace strip that
 * `float()` applies to its argument.
 */
module Strings {

  /** `s.replace(c, '')`: every occurrence of `c` deleted, the rest kept in order. */
  function Remove(s: string, c: char): (r: string)
    ensures |r| <= |s|
    ensures c !in r
  {
    if s == [] then []
    else (if s[0] == c then [] else [s[0]]) + Remove(s[1..], c)
  }

  /** Removing one character keeps every other one. */
  lemma {:induction false} RemoveKeeps(s: string, c: char, x: char)
    ensures x in Remove(s, c) <==> x in s && x != c
  {
    if s != [] {
      RemoveKeeps(s[1..], c, x);
      assert s == [s[0]] + s[1..];
    }
  }

  lemma {:induction false} RemoveAbsent(s: string, c: char)
    requires c !in s
    ensures Remove(s, c) == s
  {
    if s != [] {
      RemoveAbsent(s[1..], c);
    }
  }

  lemma RemoveFirst(c: char, t: string)
    ensures Remove([c] + t, c) == Remove(t, c)
  {
    assert ([c] + t)[1..] == t;
  }

  lemma {:induction false} RemoveAppend(s: string, t: string, c: char)
    ensures Remove(s + t, c) == Remove(s, c) + Remove(t, c)
  {
    if s == [] {
      assert s + t == t;
    } else {
      var x, rest := s[0], s[1..];
      assert s == [x] + rest;
      assert s + t == [x] + (rest + t);
      RemoveFirstOf(x, rest + t, c);
      RemoveFirstOf(x, rest, c);
      RemoveAppend(rest, t, c);
    }
  }

  lemma RemoveFirstOf(x: char, r: string, c: char)
    ensures Remove([x] + r, c) == (if x == c then [] else [x]) + Remove(r, c)
  {
    assert ([x] + r)[0] == x && ([x] + r)[1..] == r;
  }

  predicate IsLower(c: char) { 'a' <= c <= 'z' }

  predicate IsUpper(c: char) { 'A' <= c <= 'Z' }

  function UpperChar(c: char): char
  {
    if IsLower(c) then (c as int - 32) as char else c
  }

  function LowerChar(c: char): char
  {
    if IsUpper(c) then (c as int + 32) as char else c
  }

  /** `s.upper()` on ASCII letters; every other character is left alone. */
  function Upper(s: string): (r: string)
    ensures |r| == |s|
  {
    if s == [] then [] else [UpperChar(s[0])] + Upper(s[1..])
  }

  lemma {:induction false} UpperAt(s: string, i: nat)
    requires i < |s|
    ensures Upper(s)[i] == UpperChar(s[i])
  {
    if i > 0 {
      UpperAt(s[1..], i - 1);
    }
  }

  lemma {:induction false} UpperAppend(s: string, t: string)
    ensures Upper(s + t) == Upper(s) + Upper(t)
  {
    assert |Upper(s + t)| == |Upper(s) + Upper(t)|;
    forall i | 0 <= i < |s + t|
      ensures Upper(s + t)[i] == (Upper(s) + Upper(t))[i]
    {
      UpperAt(s + t, i);
      if i < |s| {
        assert (s + t)[i] == s[i];
        UpperAt(s, i);
      } else {
        assert (s + t)[i] == t[i - |s|];
        UpperAt(t, i - |s|);
      }
    }
  }

  /** `s.lower()` on ASCII letters; every other character is left alone. */
  function Lower(s: string): (r: string)
    ensures |r| == |s|
  {
    if s == [] then [] else [LowerChar(s[0])] + Lower(s[1..])
  }

  lemma {:induction false} LowerAt(s: string, i: nat)
    requires i < |s|
    ensures Lower(s)[i] == LowerChar(s[i])
  {
    if i > 0 {
      LowerAt(s[1..], i - 1);
    }
  }

  /**
   * The characters Python's `str.strip()` (and so `float()`) treats as
   * whitespace: Py_UNICODE_ISSPACE.
   */
  predicate IsSpace(c: char)
  {
    || '\U{0009}' <= c <= '\U{000D}'
    || '\U{001C}' <= c <= '\U{0020}'
    || c == '\U{0085}' || c == '\U{00A0}' || c == '\U{1680}'
    || '\U{2000}' <= c <= '\U{200A}'
    || c == '\U{2028}' || c == '\U{2029}' || c == '\U{202F}'
    || c == '\U{205F}' || c == '\U{3000}'
  }

  function TrimStart(s: string): (r: string)
    ensures |r| <= |s|
  {
    if s != [] && IsSpace(s[0]) then TrimStart(s[1..]) else s
  }

  /** Trimming the front leaves a suffix of `s` that starts with a non-space, having dropped only spaces. */
  lemma {:induction false} TrimStartSpec(s: string)
    ensures var r := TrimStart(s);
      && r == s[|s| - |r|..]
      && (r == [] || !IsSpace(r[0]))
      && forall i :: 0 <= i < |s| - |r| ==> IsSpace(s[i])
  {
    if s != [] && IsSpace(s[0]) {
      TrimStartSpec(s[1..]);
      var r := TrimStart(s);
      assert s[1..][|s| - 1 - |r|..] == s[|s| - |r|..];
      forall i | 0 <= i < |s| - |r|
        ensures IsSpace(s[i])
      {
        if i > 0 {
          assert s[i] == s[1..][i - 1];
        }
      }
    }
  }

  function TrimEnd(s: string): (r: string)
    ensures |r| <= |s|
  {
    if s != [] && IsSpace(s[|s| - 1]) then TrimEnd(s[..|s| - 1]) else s
  }

  /** Trimming the back leaves a prefix of `s` that ends with a non-space, having dropped only spaces. */
  lemma {:induction false} TrimEndSpec(s: string)
    ensures var r := TrimEnd(s);
      && r == s[..|r|]
      && (r == [] || !IsSpace(r[|r| - 1]))
      && forall i :: |r| <= i < |s| ==> IsSpace(s[i])
  {
    if s != [] && IsSpace(s[|s| - 1]) {
      TrimEndSpec(s[..|s| - 1]);
      var r := TrimEnd(s);
      assert s[..|s| - 1][..|r|] == s[..|r|];
      forall i | |r| <= i < |s|
        ensures IsSpace(s[i])
      {
        if i < |s| - 1 {
          assert s[i] == s[..|s| - 1][i];
        }
      }
    }
  }

  /** `s.strip()`: leading and trailing whitespace removed. */
  function Strip(s: string): string
  {
    TrimEnd(TrimStart(s))
  }

  /** What `strip()` leaves neither starts nor ends with whitespace. */
  lemma StripEnds(s: string)
    ensures var r := Strip(s); r == [] || (!IsSpace(r[0]) && !IsSpace(r[|r| - 1]))
  {
    var t := TrimStart(s);
    TrimStartSpec(s);
    TrimEndSpec(t);
    var r := TrimEnd(t);
    if r != [] {
      assert r[0] == t[0];
    }
  }

  /** Stripping keeps every character that is not whitespace and adds none. */
  lemma StripKeeps(s: string, x: char)
    ensures x in Strip(s) ==> x in s
    ensures x in s && !IsSpace(x) ==> x in Strip(s)
  {
    TrimStartKeeps(s, x);
    TrimEndKeeps(TrimStart(s), x);
  }

  lemma {:induction false} TrimStartKeeps(s: string, x: char)
    ensures x in TrimStart(s) ==> x in s
    ensures x in s && !IsSpace(x) ==> x in TrimStart(s)
  {
    if s != [] && IsSpace(s[0]) {
      TrimStartKeeps(s[1..], x);
      assert s == [s[0]] + s[1..];
    }
  }

  lemma TrimEndKeeps(s: string, x: char)
    ensures x in TrimEnd(s) ==> x in s
    ensures x in s && !IsSpace(x) ==> x in TrimEnd(s)
  {
    var r := TrimEnd(s);
    TrimEndSpec(s);
    if x in s && !IsSpace(x) {
      var i :| 0 <= i < |s| && s[i] == x;
      assert i < |r|;
      assert r[i] == x;
    }
    if x in r {
      var j :| 0 <= j < |r| && r[j] == x;
      assert s[j] == x;
    }
  }

  lemma StripUnpadded(s: string)
    requires s != [] && !IsSpace(s[0]) && !IsSpace(s[|s| - 1])
    ensures Strip(s) == s
  {
  }
}
