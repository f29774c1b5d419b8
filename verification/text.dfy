/** The few Python string operations the converter relies on, over `seq<char>`:
    `str.split` with a one-character separator, `str.join`, ASCII `str.lower`,
    substring search (`in`), single-character `str.replace` and `str.strip`. */
module Text {

  predicate StartsWith(s: string, prefix: string) {
    |prefix| <= |s| && s[..|prefix|] == prefix
  }

  predicate EndsWith(s: string, suffix: string) {
    |suffix| <= |s| && s[|s| - |suffix|..] == suffix
  }

  /** `sep.join(parts)` */
  function Join(parts: seq<string>, sep: char): string
  {
    if |parts| == 0 then ""
    else if |parts| == 1 then parts[0]
    else parts[0] + [sep] + Join(parts[1..], sep)
  }

  /** `s.split(sep)`: never empty (the empty string splits into one empty
      part); `SplitJoin` and `SplitParts` relate it to `Join` */
  function Split(s: string, sep: char): (parts: seq<string>)
    ensures |parts| >= 1
    decreases |s|
  {
    if |s| == 0 then [""]
    else
      var rest := Split(s[1..], sep);
      if s[0] == sep then [""] + rest
      else [[s[0]] + rest[0]] + rest[1..]
  }

  /** No part holds the separator, and joining the parts gives `s` back */
  lemma {:induction false} SplitParts(s: string, sep: char)
    ensures forall i :: 0 <= i < |Split(s, sep)| ==> sep !in Split(s, sep)[i]
    ensures Join(Split(s, sep), sep) == s
    decreases |s|
  {
    if |s| > 0 {
      SplitParts(s[1..], sep);
      var rest := Split(s[1..], sep);
      if s[0] != sep {
        var parts := [[s[0]] + rest[0]] + rest[1..];
        assert parts[1..] == rest[1..];
        assert s == [s[0]] + s[1..];
      }
    }
  }

  /** The text before the first separator: `s.split(sep)[0]` */
  function FirstPart(s: string, sep: char): string
  {
    Split(s, sep)[0]
  }

  /** The text after the last separator: `s.split(sep)[-1]` */
  function LastPart(s: string, sep: char): string
  {
    var parts := Split(s, sep);
    parts[|parts| - 1]
  }

  lemma {:induction false} SplitWithoutSep(a: string, sep: char)
    requires sep !in a
    ensures Split(a, sep) == [a]
    decreases |a|
  {
    if |a| > 0 {
      SplitWithoutSep(a[1..], sep);
      assert [a[0]] + a[1..] == a;
    }
  }

  /** Splitting distributes over a separator placed between two strings */
  lemma {:induction false} SplitConcat(a: string, b: string, sep: char)
    ensures Split(a + [sep] + b, sep) == Split(a, sep) + Split(b, sep)
    decreases |a|
  {
    var s := a + [sep] + b;
    if |a| == 0 {
      assert s[0] == sep && s[1..] == b;
    } else {
      assert s[0] == a[0] && s[1..] == a[1..] + [sep] + b;
      SplitConcat(a[1..], b, sep);
      var r := Split(a[1..], sep);
      var rs := Split(s[1..], sep);
      assert rs == r + Split(b, sep);
      if a[0] != sep {
        assert rs[0] == r[0];
        assert rs[1..] == r[1..] + Split(b, sep);
        assert Split(s, sep) == [[a[0]] + r[0]] + rs[1..];
        assert Split(a, sep) == [[a[0]] + r[0]] + r[1..];
      }
    }
  }

  /** Round trip: splitting a join of separator-free parts gives the parts back */
  lemma {:induction false} SplitJoin(parts: seq<string>, sep: char)
    requires |parts| >= 1
    requires forall i :: 0 <= i < |parts| ==> sep !in parts[i]
    ensures Split(Join(parts, sep), sep) == parts
    decreases |parts|
  {
    SplitWithoutSep(parts[0], sep);
    if |parts| > 1 {
      SplitJoin(parts[1..], sep);
      SplitConcat(parts[0], Join(parts[1..], sep), sep);
    }
  }

  lemma FirstPartOfJoin(parts: seq<string>, sep: char)
    requires |parts| >= 1
    requires forall i :: 0 <= i < |parts| ==> sep !in parts[i]
    ensures FirstPart(Join(parts, sep), sep) == parts[0]
  {
    SplitJoin(parts, sep);
  }

  /** What follows a part does not change it when it starts with the separator */
  lemma FirstPartBeforeSep(w: string, t: string, sep: char)
    requires t == "" || t[0] == sep
    ensures FirstPart(w + t, sep) == FirstPart(w, sep)
  {
    if t == "" {
      assert w + t == w;
    } else {
      assert t == [sep] + t[1..];
      assert w + t == w + [sep] + t[1..];
      SplitConcat(w, t[1..], sep);
    }
  }

  /** The part that starts right after a separator is one of the parts */
  lemma PartAfterSep(s: string, i: nat, sep: char)
    requires i < |s| && s[i] == sep
    ensures FirstPart(s[i + 1..], sep) in Split(s, sep)
  {
    assert s == s[..i] + [sep] + s[i + 1..];
    SplitConcat(s[..i], s[i + 1..], sep);
    assert Split(s, sep)[|Split(s[..i], sep)|] == FirstPart(s[i + 1..], sep);
  }

  /** A string splits into more than one part exactly when it holds the separator */
  lemma SplitCountsSep(s: string, sep: char)
    ensures |Split(s, sep)| == 1 <==> sep !in s
  {
  }

  /** The last part holds no separator; when `s` holds one, `s` ends with
      the separator followed by the last part, and otherwise the last part is
      all of `s` */
  lemma LastPartAfterSep(s: string, sep: char)
    ensures sep !in LastPart(s, sep)
    ensures sep in s ==> EndsWith(s, [sep] + LastPart(s, sep))
    ensures sep !in s ==> LastPart(s, sep) == s
  {
    var parts := Split(s, sep);
    SplitParts(s, sep);
    SplitCountsSep(s, sep);
    if sep in s {
      var n := |parts|;
      JoinSplitAt(parts, n - 1, sep);
      assert parts[n - 1..] == [parts[n - 1]];
    } else {
      SplitWithoutSep(s, sep);
    }
  }

  /** The last part is the only separator-free suffix that follows a separator */
  lemma LastPartUnique(s: string, x: string, sep: char)
    requires sep !in x && EndsWith(s, [sep] + x)
    ensures x == LastPart(s, sep)
  {
    var w := s[..|s| - |x| - 1];
    assert s == w + [sep] + x;
    SplitConcat(w, x, sep);
    SplitWithoutSep(x, sep);
  }

  /** Joining the first `k` parts gives a prefix of the whole join, followed by
      the separator and the join of the remaining parts */
  lemma {:induction false} JoinSplitAt(parts: seq<string>, k: nat, sep: char)
    requires 1 <= k < |parts|
    ensures Join(parts, sep) == Join(parts[..k], sep) + [sep] + Join(parts[k..], sep)
    decreases k
  {
    if k > 1 {
      JoinSplitAt(parts[1..], k - 1, sep);
      assert parts[1..][..k - 1] == parts[..k][1..];
      assert parts[1..][k - 1..] == parts[k..];
    }
  }

  /** ASCII `str.lower` on one character */
  function LowerChar(c: char): char
  {
    if 'A' <= c <= 'Z' then (c as int - 'A' as int + 'a' as int) as char else c
  }

  /** ASCII `str.lower` */
  function Lower(s: string): (r: string)
    ensures |r| == |s|
    ensures forall i :: 0 <= i < |s| ==> r[i] == LowerChar(s[i])
    ensures forall i :: 0 <= i < |r| ==> !('A' <= r[i] <= 'Z')
  {
    seq(|s|, i requires 0 <= i < |s| => LowerChar(s[i]))
  }

  /** `needle` occurs in `hay` starting at index `i` */
  predicate OccursAt(hay: string, needle: string, i: int)
  {
    0 <= i <= |hay| - |needle| && hay[i..i + |needle|] == needle
  }

  /** `s` begins with `prefix`, compared character by character */
  predicate MatchesPrefix(s: string, prefix: string)
    decreases |prefix|
  {
    |prefix| == 0 || (|s| > 0 && s[0] == prefix[0] && MatchesPrefix(s[1..], prefix[1..]))
  }

  lemma {:induction false} MatchesPrefixIsStartsWith(s: string, prefix: string)
    ensures MatchesPrefix(s, prefix) <==> StartsWith(s, prefix)
    decreases |prefix|
  {
    if 0 < |prefix| <= |s| {
      MatchesPrefixIsStartsWith(s[1..], prefix[1..]);
      assert s[..|prefix|] == [s[0]] + s[1..][..|prefix| - 1];
      assert prefix == [prefix[0]] + prefix[1..];
    } else if 0 < |s| < |prefix| {
      MatchesPrefixIsStartsWith(s[1..], prefix[1..]);
    }
  }

  /** `needle in hay` for strings */
  predicate Contains(hay: string, needle: string)
    decreases |hay|
  {
    MatchesPrefix(hay, needle) || (|hay| > 0 && Contains(hay[1..], needle))
  }

  /** Substring search agrees with the positional definition */
  lemma {:induction false} ContainsAt(hay: string, needle: string)
    ensures Contains(hay, needle) <==> exists i :: OccursAt(hay, needle, i)
    decreases |hay|
  {
    MatchesPrefixIsStartsWith(hay, needle);
    if StartsWith(hay, needle) {
      assert OccursAt(hay, needle, 0);
    } else if |hay| > 0 {
      ContainsAt(hay[1..], needle);
      if Contains(hay[1..], needle) {
        var i :| OccursAt(hay[1..], needle, i);
        SliceOfTail(hay, i + 1, |needle|);
        assert OccursAt(hay, needle, i + 1);
      }
      forall i | OccursAt(hay, needle, i)
        ensures OccursAt(hay[1..], needle, i - 1)
      {
        assert i != 0;
        SliceOfTail(hay, i, |needle|);
      }
    }
  }

  /** A slice of the tail is the slice of the whole shifted by one */
  lemma SliceOfTail(s: string, i: int, m: nat)
    requires 1 <= i && i + m <= |s|
    ensures s[1..][i - 1..i - 1 + m] == s[i..i + m]
  {
    var a, b := s[1..][i - 1..i - 1 + m], s[i..i + m];
    assert forall k :: 0 <= k < m ==> a[k] == b[k];
  }

  /** Every character of a contained needle occurs in the haystack */
  lemma ContainedCharsOccur(hay: string, needle: string, c: char)
    requires Contains(hay, needle) && c in needle
    ensures c in hay
  {
    ContainsAt(hay, needle);
    var i :| OccursAt(hay, needle, i);
    var j :| 0 <= j < |needle| && needle[j] == c;
    assert hay[i..i + |needle|][j] == hay[i + j];
  }

  /** Lower-casing cannot create a lower-case letter that was absent in both cases */
  lemma LowerKeepsMissing(s: string, c: char)
    requires 'a' <= c <= 'z' && c !in s && (c as int - 32) as char !in s
    ensures c !in Lower(s)
  {
    var r := Lower(s);
    forall i | 0 <= i < |s|
      ensures r[i] != c
    {
      assert s[i] != c && s[i] != (c as int - 32) as char;
    }
  }

  /** `any(n in hay for n in needles)` */
  predicate ContainsAny(hay: string, needles: seq<string>)
    decreases |needles|
  {
    |needles| > 0 && (Contains(hay, needles[0]) || ContainsAny(hay, needles[1..]))
  }

  lemma {:induction false} ContainsAnyExists(hay: string, needles: seq<string>)
    ensures ContainsAny(hay, needles) <==> exists k :: 0 <= k < |needles| && Contains(hay, needles[k])
    decreases |needles|
  {
    if |needles| > 0 {
      ContainsAnyExists(hay, needles[1..]);
      if exists k :: 0 <= k < |needles| && Contains(hay, needles[k]) {
        var k :| 0 <= k < |needles| && Contains(hay, needles[k]);
        if k > 0 {
          assert needles[1..][k - 1] == needles[k];
        }
      }
      if ContainsAny(hay, needles[1..]) {
        var k :| 0 <= k < |needles[1..]| && Contains(hay, needles[1..][k]);
        assert needles[k + 1] == needles[1..][k];
      }
    }
  }

  /** `s.replace(from, to)` for single characters */
  function Replace(s: string, from: char, to: char): (r: string)
    ensures |r| == |s|
    ensures forall i :: 0 <= i < |s| ==> r[i] == (if s[i] == from then to else s[i])
  {
    if |s| == 0 then "" else [if s[0] == from then to else s[0]] + Replace(s[1..], from, to)
  }

  /** The characters `str.strip()` removes: those for which Python's
      `str.isspace` holds */
  predicate IsSpace(c: char)
  {
    || c == ' ' || c == '\t' || c == '\n' || c == '\r' || c == '\U{B}' || c == '\U{C}'
    || ('\U{1C}' <= c <= '\U{1F}')
    || c == '\U{85}' || c == '\U{A0}' || c == '\U{1680}'
    || ('\U{2000}' <= c <= '\U{200A}')
    || c == '\U{2028}' || c == '\U{2029}' || c == '\U{202F}' || c == '\U{205F}' || c == '\U{3000}'
  }

  predicate AllSpace(s: string)
  {
    forall i :: 0 <= i < |s| ==> IsSpace(s[i])
  }

  /** A concatenation is whitespace only exactly when both halves are */
  lemma AllSpaceConcat(a: string, b: string)
    ensures AllSpace(a + b) <==> AllSpace(a) && AllSpace(b)
  {
    if AllSpace(a) && AllSpace(b) {
      forall k | 0 <= k < |a + b|
        ensures IsSpace((a + b)[k])
      {
        if k >= |a| {
          assert (a + b)[k] == b[k - |a|];
        }
      }
    }
    if AllSpace(a + b) {
      forall k | 0 <= k < |a|
        ensures IsSpace(a[k])
      {
        assert (a + b)[k] == a[k];
      }
      forall k | 0 <= k < |b|
        ensures IsSpace(b[k])
      {
        assert (a + b)[|a| + k] == b[k];
      }
    }
  }

  /** `str.lstrip()`: the longest suffix that does not start with whitespace */
  function TrimStart(s: string): (r: string)
    ensures EndsWith(s, r)
    ensures AllSpace(s[..|s| - |r|])
    ensures r == "" || !IsSpace(r[0])
    decreases |s|
  {
    if |s| > 0 && IsSpace(s[0]) then
      var r := TrimStart(s[1..]);
      assert s[..|s| - |r|] == [s[0]] + s[1..][..|s[1..]| - |r|];
      AllSpaceConcat([s[0]], s[1..][..|s[1..]| - |r|]);
      r
    else s
  }

  /** `str.rstrip()`: the longest prefix that does not end with whitespace */
  function TrimEnd(s: string): (r: string)
    ensures StartsWith(s, r)
    ensures AllSpace(s[|r|..])
    ensures r == "" || !IsSpace(r[|r| - 1])
    decreases |s|
  {
    if |s| > 0 && IsSpace(s[|s| - 1]) then
      var r := TrimEnd(s[..|s| - 1]);
      assert s[|r|..] == s[..|s| - 1][|r|..] + [s[|s| - 1]];
      AllSpaceConcat(s[..|s| - 1][|r|..], [s[|s| - 1]]);
      r
    else s
  }

  /** `r` is the slice of `s` at index `i` and only whitespace lies around it */
  predicate StrippedAt(s: string, r: string, i: int)
  {
    0 <= i <= |s| - |r| && s[i..i + |r|] == r && AllSpace(s[..i]) && AllSpace(s[i + |r|..])
  }

  /** `str.strip()`: a slice of `s` with only whitespace around it, empty
      exactly when `s` is all whitespace, and otherwise with neither end
      whitespace; `StripCharacterised` shows these facts pin it down */
  function Strip(s: string): (r: string)
    ensures exists i :: StrippedAt(s, r, i)
    ensures r == "" <==> AllSpace(s)
    ensures r == "" || (!IsSpace(r[0]) && !IsSpace(r[|r| - 1]))
  {
    var t := TrimStart(s);
    var r := TrimEnd(t);
    StripSlice(s, t, r);
    r
  }

  /** What strip keeps is the slice of `s` at `|s| - |t|` with only
      whitespace around it */
  lemma StripSlice(s: string, t: string, r: string)
    requires EndsWith(s, t) && AllSpace(s[..|s| - |t|]) && (t == "" || !IsSpace(t[0]))
    requires StartsWith(t, r) && AllSpace(t[|r|..])
    ensures StrippedAt(s, r, |s| - |t|)
    ensures r == "" <==> AllSpace(s)
  {
    var i := |s| - |t|;
    assert s == s[..i] + t;
    assert t == r + t[|r|..];
    assert s[i..i + |r|] == r;
    assert s[i + |r|..] == t[|r|..];
    if r == "" {
      assert t == "";
      assert s == s[..i];
    } else {
      assert s[i] == r[0];
    }
  }

  /** A slice with only whitespace around it and no whitespace at either end
      is what `Strip` keeps */
  lemma StripCharacterised(s: string, r: string, i: int)
    requires StrippedAt(s, r, i)
    requires r == "" || (!IsSpace(r[0]) && !IsSpace(r[|r| - 1]))
    ensures r == Strip(s)
  {
    var q := Strip(s);
    if r == "" {
      AllSpaceAround(s, i);
    } else {
      assert s[i] == r[0];
      var j :| StrippedAt(s, q, j);
      SameSlice(s, r, i, q, j);
    }
  }

  /** Two non-empty slices with only whitespace around them and none at
      their ends are the same slice */
  lemma SameSlice(s: string, r: string, i: int, q: string, j: int)
    requires StrippedAt(s, r, i) && StrippedAt(s, q, j)
    requires r != "" && !IsSpace(r[0]) && !IsSpace(r[|r| - 1])
    requires q != "" && !IsSpace(q[0]) && !IsSpace(q[|q| - 1])
    ensures r == q
  {
    assert s[i] == r[0];
    assert s[j] == q[0];
    SameStart(s, i, j);
    assert s[i + |r| - 1] == r[|r| - 1];
    assert s[j + |q| - 1] == q[|q| - 1];
    SameEnd(s, i + |r|, j + |q|);
  }

  /** Whitespace on both sides of a position makes the whole string whitespace */
  lemma AllSpaceAround(s: string, i: int)
    requires 0 <= i <= |s| && AllSpace(s[..i]) && AllSpace(s[i..])
    ensures AllSpace(s)
  {
    forall k | 0 <= k < |s|
      ensures IsSpace(s[k])
    {
      if k < i {
        assert s[k] == s[..i][k];
      } else {
        assert s[k] == s[i..][k - i];
      }
    }
  }

  /** Two positions each preceded only by whitespace and holding no
      whitespace are the same */
  lemma SameStart(s: string, i: int, j: int)
    requires 0 <= i < |s| && 0 <= j < |s|
    requires AllSpace(s[..i]) && AllSpace(s[..j])
    requires !IsSpace(s[i]) && !IsSpace(s[j])
    ensures i == j
  {
  }

  /** Two ends each followed only by whitespace and preceded by a character
      that is not whitespace are the same */
  lemma SameEnd(s: string, e: int, f: int)
    requires 0 < e <= |s| && 0 < f <= |s|
    requires AllSpace(s[e..]) && AllSpace(s[f..])
    requires !IsSpace(s[e - 1]) && !IsSpace(s[f - 1])
    ensures e == f
  {
  }
}
