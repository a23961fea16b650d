/** The handful of Python `str` operations the core relies on: `strip`,
    `startswith`/`endswith`, `split` (on a separator and on whitespace) and
    `join`, written over `seq<char>` with the facts about them the other
    modules need. */
module Strings {

  /** The characters Python's `str.isspace` accepts, which is also what
      `str.strip()` and `str.split()` with no argument remove. */
  const Whitespace: set<char> := {
    '\t', '\n', '\U{000B}', '\U{000C}', '\r', '\U{001C}', '\U{001D}', '\U{001E}', '\U{001F}',
    ' ', '\U{0085}', '\U{00A0}', '\U{1680}',
    '\U{2000}', '\U{2001}', '\U{2002}', '\U{2003}', '\U{2004}', '\U{2005}', '\U{2006}',
    '\U{2007}', '\U{2008}', '\U{2009}', '\U{200A}',
    '\U{2028}', '\U{2029}', '\U{202F}', '\U{205F}', '\U{3000}'
  }

  predicate StartsWith(s: string, prefix: string) {
    |prefix| <= |s| && s[..|prefix|] == prefix
  }

  predicate EndsWith(s: string, suffix: string) {
    |suffix| <= |s| && s[|s| - |suffix|..] == suffix
  }

  /** `s.lstrip(chars)`: the longest suffix of `s` not starting with one of `chars`. */
  function TrimStart(s: string, chars: set<char>): (r: string)
    ensures |r| <= |s| && r == s[|s| - |r|..]
    ensures forall k :: 0 <= k < |s| - |r| ==> s[k] in chars
    ensures r == [] || r[0] !in chars
  {
    if s == [] || s[0] !in chars then s else TrimStart(s[1..], chars)
  }

  /** `s.rstrip(chars)`: the longest prefix of `s` not ending with one of `chars`. */
  function TrimEnd(s: string, chars: set<char>): (r: string)
    ensures |r| <= |s| && r == s[..|r|]
    ensures forall k :: |r| <= k < |s| ==> s[k] in chars
    ensures r == [] || r[|r| - 1] !in chars
  {
    if s == [] || s[|s| - 1] !in chars then s else TrimEnd(s[..|s| - 1], chars)
  }

  /** `s.strip(chars)`: `lstrip`, then `rstrip`; the result neither starts
      nor ends with one of `chars`. */
  function StripChars(s: string, chars: set<char>): (r: string)
    ensures r == [] || (r[0] !in chars && r[|r| - 1] !in chars)
  {
    TrimEnd(TrimStart(s, chars), chars)
  }

  /** `s.strip()`: no whitespace at either end, and a text without
      whitespace at its ends comes back unchanged. */
  function Strip(s: string): (r: string)
    ensures |r| <= |s|
    ensures r == [] || (r[0] !in Whitespace && r[|r| - 1] !in Whitespace)
    ensures s == [] || (s[0] !in Whitespace && s[|s| - 1] !in Whitespace) ==> r == s
  {
    StripChars(s, Whitespace)
  }

  /** Every character of `s` is whitespace (`s.isspace()`, or `s` is empty). */
  predicate Blank(s: string) {
    forall k :: 0 <= k < |s| ==> s[k] in Whitespace
  }

  /** A text whose ends are not stripped characters is its own strip. */
  lemma StripCharsUnchanged(s: string, chars: set<char>)
    requires s == [] || (s[0] !in chars && s[|s| - 1] !in chars)
    ensures StripChars(s, chars) == s
  {
  }

  /** Stripping a text padded with stripped characters on both sides gives
      back the text, when its own ends are not stripped characters. */
  lemma StripPadded(before: string, s: string, after: string, chars: set<char>)
    requires forall k :: 0 <= k < |before| ==> before[k] in chars
    requires forall k :: 0 <= k < |after| ==> after[k] in chars
    requires s != [] && s[0] !in chars && s[|s| - 1] !in chars
    ensures StripChars(before + s + after, chars) == s
  {
    assert before + s + after == before + (s + after);
    TrimStartPadded(before, s + after, chars);
    TrimEndPadded(s, after, chars);
  }

  /** `lstrip` removes exactly a leading run of stripped characters. */
  lemma {:induction false} TrimStartPadded(before: string, rest: string, chars: set<char>)
    requires forall k :: 0 <= k < |before| ==> before[k] in chars
    requires rest != [] && rest[0] !in chars
    ensures TrimStart(before + rest, chars) == rest
    decreases |before|
  {
    if before == [] {
      assert before + rest == rest;
    } else {
      assert (before + rest)[0] == before[0];
      assert (before + rest)[1..] == before[1..] + rest;
      TrimStartPadded(before[1..], rest, chars);
    }
  }

  /** `rstrip` removes exactly a trailing run of stripped characters. */
  lemma {:induction false} TrimEndPadded(rest: string, after: string, chars: set<char>)
    requires forall k :: 0 <= k < |after| ==> after[k] in chars
    requires rest != [] && rest[|rest| - 1] !in chars
    ensures TrimEnd(rest + after, chars) == rest
    decreases |after|
  {
    if after == [] {
      assert rest + after == rest;
    } else {
      var x := rest + after;
      assert x[|x| - 1] == after[|after| - 1];
      assert x[..|x| - 1] == rest + after[..|after| - 1];
      TrimEndPadded(rest, after[..|after| - 1], chars);
    }
  }

  /** Stripping twice is stripping once. */
  lemma StripCharsIdempotent(s: string, chars: set<char>)
    ensures StripChars(StripChars(s, chars), chars) == StripChars(s, chars)
  {
    var t := StripChars(s, chars);
    if t != [] {
      var u := TrimStart(s, chars);
      assert t == u[..|t|];
      assert t[0] == u[0];
      StripCharsUnchanged(t, chars);
    }
  }

  /** `s.split(sep)` for a one-character separator: the pieces between the
      separators, empty pieces included, so there is always at least one. */
  function Split(s: string, sep: char): (r: seq<string>)
    ensures |r| >= 1
    ensures forall k :: 0 <= k < |r| ==> sep !in r[k]
    decreases |s|
  {
    if s == [] then [""]
    else if s[0] == sep then [""] + Split(s[1..], sep)
    else
      var rest := Split(s[1..], sep);
      [[s[0]] + rest[0]] + rest[1..]
  }

  /** `sep.join(parts)`: empty for no parts, otherwise starting with the
      first part. */
  function Join(parts: seq<string>, sep: string): (r: string)
    ensures parts == [] ==> r == ""
    ensures parts != [] ==> StartsWith(r, parts[0])
    decreases |parts|
  {
    if parts == [] then ""
    else if |parts| == 1 then parts[0]
    else parts[0] + sep + Join(parts[1..], sep)
  }

  /** A text without the separator is a single piece. */
  lemma {:induction false} SplitWithoutSeparator(s: string, sep: char)
    requires sep !in s
    ensures Split(s, sep) == [s]
    decreases |s|
  {
    if s != [] {
      assert s[0] != sep && sep !in s[1..];
      SplitWithoutSeparator(s[1..], sep);
      assert [s[0]] + s[1..] == s;
    }
  }

  /** Splitting at one separator occurrence splits the text in two lists. */
  lemma {:induction false} SplitAround(a: string, sep: char, b: string)
    ensures Split(a + [sep] + b, sep) == Split(a, sep) + Split(b, sep)
    decreases |a|
  {
    if a == [] {
      assert a + [sep] + b == [sep] + b;
      assert ([sep] + b)[1..] == b;
    } else {
      var s := a + [sep] + b;
      assert s[0] == a[0];
      assert s[1..] == a[1..] + [sep] + b;
      SplitAround(a[1..], sep, b);
    }
  }

  /** Joining with the separator undoes splitting on it. */
  lemma {:induction false} JoinSplit(s: string, sep: char)
    ensures Join(Split(s, sep), [sep]) == s
    decreases |s|
  {
    if s != [] {
      JoinSplit(s[1..], sep);
      var rest := Split(s[1..], sep);
      if s[0] == sep {
        assert Split(s, sep) == [""] + rest;
        assert ([""] + rest)[1..] == rest;
      } else {
        var r := Split(s, sep);
        assert r == [[s[0]] + rest[0]] + rest[1..];
        if |rest| == 1 {
          assert s == [s[0]] + s[1..];
        } else {
          assert r[1..] == rest[1..];
          assert Join(rest, [sep]) == rest[0] + [sep] + Join(rest[1..], [sep]);
          assert s == [s[0]] + s[1..];
        }
      }
    }
  }

  /** Joining a list with one more piece at the end adds the separator and the piece. */
  lemma {:induction false} JoinSnoc(parts: seq<string>, sep: string, last: string)
    requires parts != []
    ensures Join(parts + [last], sep) == Join(parts, sep) + sep + last
    decreases |parts|
  {
    if |parts| == 1 {
      assert parts + [last] == [parts[0], last];
    } else {
      assert (parts + [last])[1..] == parts[1..] + [last];
      JoinSnoc(parts[1..], sep, last);
    }
  }

  /** Joining two non-empty lists is joining each and putting a separator between. */
  lemma {:induction false} JoinAppend(a: seq<string>, b: seq<string>, sep: string)
    requires a != [] && b != []
    ensures Join(a + b, sep) == Join(a, sep) + sep + Join(b, sep)
    decreases |a|
  {
    if |a| == 1 {
      assert a + b == [a[0]] + b;
      assert ([a[0]] + b)[1..] == b;
    } else {
      assert (a + b)[1..] == a[1..] + b;
      JoinAppend(a[1..], b, sep);
    }
  }

  /** Length of the leading run of non-whitespace characters of `s`. */
  function WordEnd(s: string): (n: nat)
    ensures n <= |s|
    ensures forall k :: 0 <= k < n ==> s[k] !in Whitespace
    ensures n == |s| || s[n] in Whitespace
  {
    if s == [] || s[0] in Whitespace then 0 else 1 + WordEnd(s[1..])
  }

  /** `s.split()`: the maximal runs of non-whitespace characters, in order. */
  function Words(s: string): (ws: seq<string>)
    ensures forall k :: 0 <= k < |ws| ==> ws[k] != []
    ensures forall k, j :: 0 <= k < |ws| && 0 <= j < |ws[k]| ==> ws[k][j] !in Whitespace
    decreases |s|
  {
    if s == [] then []
    else if s[0] in Whitespace then Words(s[1..])
    else
      var n := WordEnd(s);
      [s[..n]] + Words(s[n..])
  }

  /** A text has no words exactly when it is empty or all whitespace. */
  lemma {:induction false} NoWordsIffBlank(s: string)
    ensures Words(s) == [] <==> forall k :: 0 <= k < |s| ==> s[k] in Whitespace
    decreases |s|
  {
    if s != [] && s[0] in Whitespace {
      NoWordsIffBlank(s[1..]);
      assert forall k :: 1 <= k < |s| ==> s[k] == s[1..][k - 1];
    }
  }

  /** A single run of non-whitespace characters is one word. */
  lemma SingleWord(s: string)
    requires s != [] && forall k :: 0 <= k < |s| ==> s[k] !in Whitespace
    ensures Words(s) == [s]
  {
    assert s[0] !in Whitespace;
    assert WordEnd(s) == |s|;
    assert s[..|s|] == s && s[|s|..] == [];
  }
}
