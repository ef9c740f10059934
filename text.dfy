/** String operations the subject programs and the runner scripts rely on:
    Go's strings.Split (also Python's str.split with a one-character separator),
    Python's `in`, str.replace with an empty replacement and str.strip, and
    decimal rendering of integers (Go's %d and fmt.Println, Java's %d). */
module Text {

  /** Split s at every occurrence of sep, keeping empty fields, including a
      trailing one: Split("a,,b,", ',') == ["a", "", "b", ""], Split("", ',') == [""]. */
  function Split(s: string, sep: char): (parts: seq<string>)
    ensures |parts| >= 1
    ensures forall i :: 0 <= i < |parts| ==> sep !in parts[i]
    decreases |s|
  {
    if |s| == 0 then [""]
    else
      var rest := Split(s[1..], sep);
      if s[0] == sep then [""] + rest
      else
        assert sep !in [s[0]] + rest[0];
        [[s[0]] + rest[0]] + rest[1..]
  }

  /** The inverse of Split: the fields glued back together with sep. */
  function Join(parts: seq<string>, sep: char): string
    requires |parts| >= 1
  {
    if |parts| == 1 then parts[0] else parts[0] + [sep] + Join(parts[1..], sep)
  }

  function CountChar(s: string, c: char): nat
  {
    if |s| == 0 then 0 else (if s[0] == c then 1 else 0) + CountChar(s[1..], c)
  }

  /** Splitting yields one field more than there are separators. */
  lemma {:induction false} SplitLength(s: string, sep: char)
    ensures |Split(s, sep)| == CountChar(s, sep) + 1
    decreases |s|
  {
    if |s| > 0 {
      SplitLength(s[1..], sep);
    }
  }

  /** Joining the fields of s gives s back. */
  lemma {:induction false} JoinSplit(s: string, sep: char)
    ensures Join(Split(s, sep), sep) == s
    decreases |s|
  {
    if |s| > 0 {
      JoinSplit(s[1..], sep);
      var rest := Split(s[1..], sep);
      if s[0] == sep {
        assert ([""] + rest)[1..] == rest;
      } else if |rest| == 1 {
      } else {
        var parts := [[s[0]] + rest[0]] + rest[1..];
        assert parts[1..] == rest[1..];
        assert Join(rest, sep) == rest[0] + [sep] + Join(rest[1..], sep);
        assert s == [s[0]] + s[1..];
      }
    }
  }

  lemma SplitNoSep(s: string, sep: char)
    requires sep !in s
    ensures Split(s, sep) == [s]
    decreases |s|
  {
    if |s| > 0 {
      assert sep !in s[1..];
      SplitNoSep(s[1..], sep);
      assert s == [s[0]] + s[1..];
    }
  }

  /** A split has more than one field exactly when the separator occurs. */
  lemma SplitSeveral(s: string, sep: char)
    ensures |Split(s, sep)| >= 2 <==> sep in s
  {
    if sep in s {
      SplitLength(s, sep);
      CountCharIn(s, sep);
    } else {
      SplitNoSep(s, sep);
    }
  }

  lemma {:induction false} CountCharIn(s: string, c: char)
    requires c in s
    ensures CountChar(s, c) > 0
    decreases |s|
  {
    if s[0] != c {
      assert c in s[1..];
      CountCharIn(s[1..], c);
    }
  }

  /** A field free of sep, then sep: the split starts with that field. */
  lemma {:induction false} SplitPrefixField(p: string, b: string, sep: char)
    requires sep !in p
    ensures Split(p + [sep] + b, sep) == [p] + Split(b, sep)
    decreases |p|
  {
    var s := p + [sep] + b;
    if |p| == 0 {
      assert s[1..] == b;
    } else {
      assert s[1..] == p[1..] + [sep] + b;
      assert sep !in p[1..];
      SplitPrefixField(p[1..], b, sep);
      assert [p[0]] + p[1..] == p;
    }
  }

  /** Splitting the joined fields gives the fields back, provided none holds sep. */
  lemma {:induction false} SplitJoin(parts: seq<string>, sep: char)
    requires |parts| >= 1
    requires forall i :: 0 <= i < |parts| ==> sep !in parts[i]
    ensures Split(Join(parts, sep), sep) == parts
    decreases |parts|
  {
    if |parts| == 1 {
      SplitNoSep(parts[0], sep);
    } else {
      SplitJoin(parts[1..], sep);
      SplitPrefixField(parts[0], Join(parts[1..], sep), sep);
      assert parts == [parts[0]] + parts[1..];
    }
  }

  /** Joining two runs of fields is joining each and gluing with sep. */
  lemma {:induction false} JoinAppend(x: seq<string>, y: seq<string>, sep: char)
    requires |x| >= 1 && |y| >= 1
    ensures Join(x + y, sep) == Join(x, sep) + [sep] + Join(y, sep)
    decreases |x|
  {
    if |x| == 1 {
      assert (x + y)[1..] == y;
    } else {
      assert (x + y)[1..] == x[1..] + y;
      JoinAppend(x[1..], y, sep);
    }
  }

  /** Splitting distributes over a separator: the fields of a + sep + b are the
      fields of a followed by the fields of b. */
  lemma SplitAppend(a: string, b: string, sep: char)
    ensures Split(a + [sep] + b, sep) == Split(a, sep) + Split(b, sep)
  {
    var x := Split(a, sep);
    var y := Split(b, sep);
    JoinSplit(a, sep);
    JoinSplit(b, sep);
    JoinAppend(x, y, sep);
    assert forall i :: 0 <= i < |x + y| ==> sep !in (x + y)[i] by {
      forall i | 0 <= i < |x + y| ensures sep !in (x + y)[i] {
        if i < |x| { assert (x + y)[i] == x[i]; } else { assert (x + y)[i] == y[i - |x|]; }
      }
    }
    SplitJoin(x + y, sep);
  }

  /** The position of the first character of s that lies in cs, or |s|. */
  function FirstIndexOf(s: string, cs: set<char>): (i: nat)
    ensures i <= |s|
    ensures forall j :: 0 <= j < i ==> s[j] !in cs
    ensures i < |s| ==> s[i] in cs
    decreases |s|
  {
    if |s| == 0 then 0 else if s[0] in cs then 0 else 1 + FirstIndexOf(s[1..], cs)
  }

  /** Python's `pat in s`: pat occurs somewhere in s. */
  predicate Contains(s: string, pat: string)
    decreases |s|
  {
    StartsWith(s, pat) || (|s| > 0 && Contains(s[1..], pat))
  }

  predicate StartsWith(s: string, pat: string)
  {
    |pat| <= |s| && s[..|pat|] == pat
  }

  /** pat occurs in s followed by pat. */
  lemma {:induction false} ContainsSuffix(s: string, pat: string)
    ensures Contains(s + pat, pat)
    decreases |s|
  {
    if |s| == 0 {
      assert (s + pat)[..|pat|] == pat;
    } else {
      assert (s + pat)[1..] == s[1..] + pat;
      ContainsSuffix(s[1..], pat);
    }
  }

  /** A text without the first character of pat does not contain pat. */
  lemma {:induction false} NotContainsHead(s: string, pat: string)
    requires |pat| > 0 && pat[0] !in s
    ensures !Contains(s, pat)
    decreases |s|
  {
    if |s| > 0 {
      assert s[0] != pat[0];
      NotContainsHead(s[1..], pat);
    }
  }

  /** Python's s.replace(pat, ''): remove every non-overlapping occurrence of pat,
      scanning from the left. */
  function RemoveAll(s: string, pat: string): string
    requires |pat| > 0
    decreases |s|
  {
    if StartsWith(s, pat) then RemoveAll(s[|pat|..], pat)
    else if |s| == 0 then ""
    else [s[0]] + RemoveAll(s[1..], pat)
  }

  /** Text that does not contain pat is left alone by RemoveAll. */
  lemma {:induction false} RemoveAllAbsent(s: string, pat: string)
    requires |pat| > 0
    requires !Contains(s, pat)
    ensures RemoveAll(s, pat) == s
    decreases |s|
  {
    if |s| > 0 {
      RemoveAllAbsent(s[1..], pat);
    }
  }

  /** A prefix that cannot start an occurrence of pat survives RemoveAll untouched. */
  lemma {:induction false} RemoveAllSkip(t: string, u: string, pat: string)
    requires |pat| > 0
    requires pat[0] !in t
    ensures RemoveAll(t + u, pat) == t + RemoveAll(u, pat)
    decreases |t|
  {
    if |t| > 0 {
      var s := t + u;
      assert s[0] == t[0] && s[0] != pat[0];
      assert !StartsWith(s, pat);
      assert s[1..] == t[1..] + u;
      RemoveAllSkip(t[1..], u, pat);
    } else {
      assert t + u == u;
    }
  }

  /** Removing a one-character pattern leaves none of that character behind. */
  lemma {:induction false} RemoveAllChar(s: string, c: char)
    ensures c !in RemoveAll(s, [c])
    decreases |s|
  {
    if |s| > 0 {
      RemoveAllChar(s[1..], c);
    }
  }

  /** Python's str.isspace() on one character: the whitespace that strip(),
      float() and int() discard. */
  predicate IsSpace(c: char)
  {
    || c == ' ' || ('\t' <= c <= '\r') || ('\U{1C}' <= c <= '\U{1F}')
    || c == '\U{85}' || c == '\U{A0}' || c == '\U{1680}' || ('\U{2000}' <= c <= '\U{200A}')
    || c == '\U{2028}' || c == '\U{2029}' || c == '\U{202F}' || c == '\U{205F}' || c == '\U{3000}'
  }

  predicate AllSpace(s: string)
  {
    forall i :: 0 <= i < |s| ==> IsSpace(s[i])
  }

  /** Neither end of s is whitespace. */
  predicate Stripped(s: string)
  {
    |s| == 0 || (!IsSpace(s[0]) && !IsSpace(s[|s| - 1]))
  }

  function TrimStart(s: string): string
    decreases |s|
  {
    if |s| > 0 && IsSpace(s[0]) then TrimStart(s[1..]) else s
  }

  function TrimEnd(s: string): string
    decreases |s|
  {
    if |s| > 0 && IsSpace(s[|s| - 1]) then TrimEnd(s[..|s| - 1]) else s
  }

  /** Python's s.strip() with no argument. */
  function Strip(s: string): string
  {
    TrimEnd(TrimStart(s))
  }

  lemma {:induction false} TrimStartSpec(s: string)
    ensures |TrimStart(s)| <= |s|
    ensures TrimStart(s) == s[|s| - |TrimStart(s)|..]
    ensures AllSpace(s[..|s| - |TrimStart(s)|])
    ensures |TrimStart(s)| == 0 || !IsSpace(TrimStart(s)[0])
    decreases |s|
  {
    if |s| > 0 && IsSpace(s[0]) {
      TrimStartSpec(s[1..]);
      var k := |s| - |TrimStart(s)|;
      assert s[1..][..k - 1] == s[1..k];
      assert s[1..][k - 1..] == s[k..];
    }
  }

  lemma {:induction false} TrimEndSpec(s: string)
    ensures |TrimEnd(s)| <= |s|
    ensures TrimEnd(s) == s[..|TrimEnd(s)|]
    ensures AllSpace(s[|TrimEnd(s)|..])
    ensures |TrimEnd(s)| == 0 || !IsSpace(TrimEnd(s)[|TrimEnd(s)| - 1])
    decreases |s|
  {
    if |s| > 0 && IsSpace(s[|s| - 1]) {
      var p := s[..|s| - 1];
      TrimEndSpec(p);
      var k := |TrimEnd(s)|;
      assert p[..k] == s[..k];
      assert s[k..] == p[k..] + [s[|s| - 1]];
    }
  }

  lemma {:induction false} TrimEndKeepsStart(s: string)
    requires |s| == 0 || !IsSpace(s[0])
    ensures |TrimEnd(s)| == 0 || TrimEnd(s)[0] == s[0]
    decreases |s|
  {
    if |s| > 0 && IsSpace(s[|s| - 1]) {
      TrimEndKeepsStart(s[..|s| - 1]);
    }
  }

  /** strip() removes only whitespace, from both ends, and what it keeps has no
      whitespace at either end. */
  lemma StripSpec(s: string)
    ensures Stripped(Strip(s))
    ensures exists w1, w2 :: AllSpace(w1) && AllSpace(w2) && s == w1 + Strip(s) + w2
  {
    var w1, w2 := StripParts(s);
  }

  /** The whitespace strip() removes from the front and from the back of s. */
  lemma StripParts(s: string) returns (w1: string, w2: string)
    ensures Stripped(Strip(s)) && AllSpace(w1) && AllSpace(w2) && s == w1 + Strip(s) + w2
  {
    var t := TrimStart(s);
    var m := TrimEnd(t);
    TrimStartSpec(s);
    w1 := s[..|s| - |t|];
    assert s == w1 + t;
    assert AllSpace(t[|m|..]) && t == m + t[|m|..] && Stripped(m) by {
      TrimEndSpec(t);
      TrimEndKeepsStart(t);
    }
    w2 := t[|m|..];
    assert s == w1 + m + w2;
  }


  lemma {:induction false} TrimStartSpace(w: string, s: string)
    requires AllSpace(w)
    ensures TrimStart(w + s) == TrimStart(s)
    decreases |w|
  {
    if |w| > 0 {
      assert (w + s)[1..] == w[1..] + s;
      TrimStartSpace(w[1..], s);
    } else {
      assert w + s == s;
    }
  }

  lemma {:induction false} TrimEndSpace(s: string, w: string)
    requires AllSpace(w)
    ensures TrimEnd(s + w) == TrimEnd(s)
    decreases |w|
  {
    if |w| > 0 {
      assert (s + w)[..|s + w| - 1] == s + w[..|w| - 1];
      TrimEndSpace(s, w[..|w| - 1]);
    } else {
      assert s + w == s;
    }
  }

  lemma {:induction false} TrimStartAppend(s: string, w: string)
    ensures TrimStart(s + w) == if AllSpace(s) then TrimStart(w) else TrimStart(s) + w
    decreases |s|
  {
    if AllSpace(s) {
      TrimStartSpace(s, w);
    } else if IsSpace(s[0]) {
      assert (s + w)[1..] == s[1..] + w;
      assert !AllSpace(s[1..]) by {
        var i :| 0 <= i < |s| && !IsSpace(s[i]);
        assert s[1..][i - 1] == s[i];
      }
      TrimStartAppend(s[1..], w);
    }
  }

  lemma {:induction false} TrimAllSpace(s: string)
    requires AllSpace(s)
    ensures TrimStart(s) == ""
    decreases |s|
  {
    if |s| > 0 {
      TrimAllSpace(s[1..]);
    }
  }

  /** Surrounding whitespace does not change what strip() returns. */
  lemma StripPadding(w1: string, s: string, w2: string)
    requires AllSpace(w1) && AllSpace(w2)
    ensures Strip(w1 + s + w2) == Strip(s)
  {
    assert w1 + s + w2 == w1 + (s + w2);
    TrimStartSpace(w1, s + w2);
    TrimStartAppend(s, w2);
    if AllSpace(s) {
      TrimAllSpace(s);
      TrimAllSpace(w2);
    } else {
      TrimEndSpace(TrimStart(s), w2);
    }
  }

  lemma StripLeadingSpace(s: string)
    ensures Strip(" " + s) == Strip(s)
  {
    StripPadding(" ", s, "");
    assert " " + s + "" == " " + s;
  }

  lemma StripTrailingSpace(s: string)
    ensures Strip(s + " ") == Strip(s)
  {
    StripPadding("", s, " ");
    assert "" + s + " " == s + " ";
  }

  /** strip() of text that already has no whitespace at its ends is that text. */
  lemma StripStripped(s: string)
    requires Stripped(s)
    ensures Strip(s) == s
  {
    if |s| > 0 {
      assert TrimStart(s) == s;
    }
  }

  function DigitChar(d: nat): char
    requires d < 10
  {
    (('0' as int) + d) as char
  }

  predicate IsDigit(c: char)
  {
    '0' <= c <= '9'
  }

  predicate AllDigits(s: string)
  {
    forall i :: 0 <= i < |s| ==> IsDigit(s[i])
  }

  /** Decimal rendering of a natural number, without leading zeros. */
  function NatToString(n: nat): (r: string)
    ensures |r| >= 1 && AllDigits(r)
    ensures r[0] == '0' ==> n == 0
    decreases n
  {
    if n < 10 then [DigitChar(n)]
    else NatToString(n / 10) + [DigitChar(n % 10)]
  }

  /** The sign of a negative number followed by the digits of its magnitude. */
  function IntToString(i: int): string
  {
    (if i < 0 then "-" else "") + NatToString(if i < 0 then -i else i)
  }

  /** Only digits and a leading '-' appear in a rendered integer. */
  lemma IntToStringChars(i: int)
    ensures |IntToString(i)| >= 1
    ensures forall j :: 0 <= j < |IntToString(i)| ==> IntToString(i)[j] == '-' || IsDigit(IntToString(i)[j])
  {
    if i < 0 {
      var d := NatToString(-i);
      assert forall j :: 1 <= j < |"-" + d| ==> ("-" + d)[j] == d[j - 1];
    }
  }
}
