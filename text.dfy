/** String normalisation used by the enrollment form: Python's `str.strip()`
    (with the exact set of characters Python's `str.isspace()` accepts), and
    ASCII approximations of `str.lower()` and `str.title()`. */
module Text {

  /** Python's `str.isspace()`: the ASCII whitespace and separator controls,
      NEL, NO-BREAK SPACE and the Unicode space separators. */
  predicate IsSpace(c: char) {
    || c == ' '
    || ('\t' <= c <= '\r')
    || ('\U{1c}' <= c <= '\U{1f}')
    || c == '\U{85}' || c == '\U{a0}' || c == '\U{1680}'
    || ('\U{2000}' <= c <= '\U{200a}')
    || c == '\U{2028}' || c == '\U{2029}' || c == '\U{202f}' || c == '\U{205f}'
    || c == '\U{3000}'
  }

  /** Truthiness of `s.strip()`: `s` is blank when it holds whitespace only. */
  predicate Blank(s: string) {
    forall i :: 0 <= i < |s| ==> IsSpace(s[i])
  }

  /** Python's `s.strip()`: whitespace is removed from both ends until
      neither end is whitespace. */
  function Strip(s: string): (r: string)
    ensures |r| <= |s|
    ensures r != [] ==> !IsSpace(r[0]) && !IsSpace(r[|r| - 1])
  {
    if s != [] && IsSpace(s[0]) then Strip(s[1..])
    else if s != [] && IsSpace(s[|s| - 1]) then Strip(s[..|s| - 1])
    else s
  }

  /** A cut of `s[1..]` between blank ends, widened by a whitespace
      first character, is a cut of `s` between blank ends. */
  lemma TrimFront(s: string, i: nat, j: nat)
    requires s != [] && IsSpace(s[0]) && i <= j <= |s| - 1
    requires Blank(s[1..][..i]) && Blank(s[1..][j..])
    ensures s[1..][i..j] == s[i + 1..j + 1] && Blank(s[..i + 1]) && Blank(s[j + 1..])
  {
    assert s[..i + 1] == [s[0]] + s[1..][..i];
    assert s[j + 1..] == s[1..][j..];
  }

  /** A cut of `s[..|s| - 1]` between blank ends, widened by a whitespace
      last character, is a cut of `s` between blank ends. */
  lemma TrimBack(s: string, i: nat, j: nat)
    requires s != [] && IsSpace(s[|s| - 1]) && i <= j <= |s| - 1
    requires Blank(s[..|s| - 1][..i]) && Blank(s[..|s| - 1][j..])
    ensures s[..|s| - 1][i..j] == s[i..j] && Blank(s[..i]) && Blank(s[j..])
  {
    assert s[..i] == s[..|s| - 1][..i];
    assert s[j..] == s[..|s| - 1][j..] + [s[|s| - 1]];
  }

  /** `s.strip()` is a slice of `s` with only whitespace cut from either
      end; with the ends `Strip` guarantees, that is exactly the leading
      and trailing whitespace. */
  lemma {:induction false} StripTrims(s: string)
    ensures exists i, j :: 0 <= i <= j <= |s| && Strip(s) == s[i..j] && Blank(s[..i]) && Blank(s[j..])
  {
    if s != [] && IsSpace(s[0]) {
      var t := s[1..];
      StripTrims(t);
      var i, j :| 0 <= i <= j <= |t| && Strip(t) == t[i..j] && Blank(t[..i]) && Blank(t[j..]);
      TrimFront(s, i, j);
      assert Strip(s) == s[i + 1..j + 1];
    } else if s != [] && IsSpace(s[|s| - 1]) {
      var t := s[..|s| - 1];
      StripTrims(t);
      var i, j :| 0 <= i <= j <= |t| && Strip(t) == t[i..j] && Blank(t[..i]) && Blank(t[j..]);
      TrimBack(s, i, j);
      assert Strip(s) == s[i..j];
    } else {
      assert Strip(s) == s[0..|s|] && Blank(s[..0]) && Blank(s[|s|..]);
    }
  }

  /** A string that neither starts nor ends with whitespace is what remains
      when blank padding around it is stripped. */
  lemma {:induction false} StripPadded(pre: string, s: string, post: string)
    requires Blank(pre) && Blank(post)
    requires s != [] ==> !IsSpace(s[0]) && !IsSpace(s[|s| - 1])
    ensures Strip(pre + s + post) == s
    decreases |pre| + |post|
  {
    var t := pre + s + post;
    if pre != [] {
      assert t[0] == pre[0];
      assert t[1..] == pre[1..] + s + post;
      StripPadded(pre[1..], s, post);
    } else if post != [] {
      assert t == s + post;
      assert t[|t| - 1] == post[|post| - 1];
      if s == [] {
        assert t[1..] == [] + [] + post[1..];
        StripPadded([], [], post[1..]);
      } else {
        assert t[0] == s[0];
        assert t[..|t| - 1] == [] + s + post[..|post| - 1];
        StripPadded([], s, post[..|post| - 1]);
      }
    } else {
      assert t == s;
      StripNoop(s);
    }
  }

  /** Two blank strings make a blank string. */
  lemma BlankConcat(a: string, b: string)
    requires Blank(a) && Blank(b)
    ensures Blank(a + b)
  {
    assert forall i :: |a| <= i < |a + b| ==> (a + b)[i] == b[i - |a|];
  }

  /** Padding a cut of `s` between blank ends with more whitespace and
      stripping gives back the cut. */
  lemma StripPaddedCut(pre: string, s: string, post: string, i: nat, j: nat)
    requires Blank(pre) && Blank(post) && i <= j <= |s|
    requires Blank(s[..i]) && Blank(s[j..])
    requires i < j ==> !IsSpace(s[i]) && !IsSpace(s[j - 1])
    ensures Strip(pre + s + post) == s[i..j]
  {
    var a, m, b := s[..i], s[i..j], s[j..];
    BlankConcat(pre, a);
    BlankConcat(b, post);
    assert s == a + m + b;
    assert pre + s + post == (pre + a) + m + (b + post);
    StripPadded(pre + a, m, b + post);
  }

  /** Whitespace added at either end does not change `s.strip()`. */
  lemma StripIgnoresPadding(pre: string, s: string, post: string)
    requires Blank(pre) && Blank(post)
    ensures Strip(pre + s + post) == Strip(s)
  {
    StripTrims(s);
    var i, j :| 0 <= i <= j <= |s| && Strip(s) == s[i..j] && Blank(s[..i]) && Blank(s[j..]);
    assert i < j ==> !IsSpace(s[i]) && !IsSpace(s[j - 1]) by {
      if i < j {
        assert s[i] == Strip(s)[0] && s[j - 1] == Strip(s)[j - 1 - i];
      }
    }
    StripPaddedCut(pre, s, post, i, j);
  }

  /** `s.strip()` is empty exactly when `s` is blank. */
  lemma {:induction false} StripEmpty(s: string)
    ensures Strip(s) == [] <==> Blank(s)
  {
    if s != [] && IsSpace(s[0]) {
      StripEmpty(s[1..]);
      assert Blank(s) <==> Blank(s[1..]) by {
        assert forall i :: 0 < i < |s| ==> s[i] == s[1..][i - 1];
      }
    } else if s != [] && IsSpace(s[|s| - 1]) {
      StripEmpty(s[..|s| - 1]);
      assert Blank(s) <==> Blank(s[..|s| - 1]) by {
        assert forall i :: 0 <= i < |s| - 1 ==> s[i] == s[..|s| - 1][i];
      }
    }
  }

  /** A string that neither starts nor ends with whitespace is its own strip. */
  lemma StripNoop(s: string)
    requires s != [] ==> !IsSpace(s[0]) && !IsSpace(s[|s| - 1])
    ensures Strip(s) == s
  {
  }

  /** Stripping twice is stripping once. */
  lemma StripIdempotent(s: string)
    ensures Strip(Strip(s)) == Strip(s)
  {
    StripNoop(Strip(s));
  }

  /** ASCII upper-case letter. */
  predicate IsUpper(c: char) { 'A' <= c <= 'Z' }

  /** ASCII lower-case letter. */
  predicate IsLower(c: char) { 'a' <= c <= 'z' }

  /** Python's "cased" characters, restricted to ASCII letters. */
  predicate IsCased(c: char) { IsUpper(c) || IsLower(c) }

  function LowerChar(c: char): (d: char)
    ensures !IsUpper(d)
    ensures IsCased(d) == IsCased(c) && IsSpace(d) == IsSpace(c)
    ensures !IsUpper(c) ==> d == c
    ensures IsUpper(c) ==> d as int == c as int + 32
  {
    if IsUpper(c) then (c as int + 32) as char else c
  }

  function UpperChar(c: char): (d: char)
    ensures !IsLower(d)
    ensures IsCased(d) == IsCased(c) && IsSpace(d) == IsSpace(c)
    ensures !IsLower(c) ==> d == c
    ensures IsLower(c) ==> d as int == c as int - 32
  {
    if IsLower(c) then (c as int - 32) as char else c
  }

  /** `s.lower()`, for ASCII letters; other characters are kept. */
  function Lower(s: string): (r: string)
    ensures |r| == |s|
    ensures forall i :: 0 <= i < |s| ==> r[i] == LowerChar(s[i])
  {
    if s == [] then [] else [LowerChar(s[0])] + Lower(s[1..])
  }

  /** Lower-casing keeps the whitespace where it is, so it commutes with
      Strip. */
  lemma {:induction false} StripLower(s: string)
    ensures Strip(Lower(s)) == Lower(Strip(s))
  {
    var l := Lower(s);
    if s != [] && IsSpace(s[0]) {
      assert IsSpace(l[0]);
      assert l[1..] == Lower(s[1..]);
      StripLower(s[1..]);
    } else if s != [] && IsSpace(s[|s| - 1]) {
      assert !IsSpace(l[0]) && IsSpace(l[|l| - 1]);
      assert l[..|l| - 1] == Lower(s[..|s| - 1]);
      StripLower(s[..|s| - 1]);
    } else {
      assert Strip(s) == s;
      StripNoop(l);
    }
  }

  /** The character that `str.title()` puts at a position whose predecessor
      is (or, at the start, is taken to be) cased or not. */
  function TitleChar(c: char, afterCased: bool): (d: char)
    ensures IsCased(d) == IsCased(c) && IsSpace(d) == IsSpace(c)
    ensures afterCased ==> !IsUpper(d)
    ensures !afterCased ==> !IsLower(d)
    ensures LowerChar(d) == LowerChar(c)
  {
    if afterCased then LowerChar(c) else UpperChar(c)
  }

  /** `str.title()` from a position whose predecessor is cased or not: the
      first letter of every run of letters is upper-cased, every other
      letter lower-cased. */
  function TitleFrom(s: string, afterCased: bool): (r: string)
    ensures |r| == |s|
    ensures forall i :: 0 <= i < |s| ==> r[i] == TitleChar(s[i], if i == 0 then afterCased else IsCased(s[i - 1]))
    ensures forall i :: 0 <= i < |s| ==> IsSpace(r[i]) == IsSpace(s[i]) && IsCased(r[i]) == IsCased(s[i])
  {
    if s == [] then [] else [TitleChar(s[0], afterCased)] + TitleFrom(s[1..], IsCased(s[0]))
  }

  /** `s.title()` (ASCII letters only). */
  function Title(s: string): (r: string)
    ensures |r| == |s|
    ensures forall i :: 0 <= i < |s| ==> r[i] == TitleChar(s[i], i > 0 && IsCased(s[i - 1]))
    ensures forall i :: 0 <= i < |s| ==> IsSpace(r[i]) == IsSpace(s[i])
    ensures forall i :: 0 <= i < |s| ==> IsCased(r[i]) == IsCased(s[i])
  {
    TitleFrom(s, false)
  }

  /** Title-casing a character does not depend on its case. */
  lemma TitleCharIgnoresCase(c: char, afterCased: bool)
    ensures TitleChar(LowerChar(c), afterCased) == TitleChar(c, afterCased)
  {
  }

  /** Title-casing ignores the case of its input. */
  lemma TitleIgnoresCase(s: string)
    ensures Title(Lower(s)) == Title(s)
  {
    var l := Lower(s);
    var tl, ts := Title(l), Title(s);
    forall i | 0 <= i < |s|
      ensures tl[i] == ts[i]
    {
      assert i > 0 ==> IsCased(l[i - 1]) == IsCased(s[i - 1]);
      TitleCharIgnoresCase(s[i], i > 0 && IsCased(s[i - 1]));
    }
  }

  /** Title-casing is idempotent. */
  lemma TitleIdempotent(s: string)
    ensures Title(Title(s)) == Title(s)
  {
    var t := Title(s);
    forall i | 0 <= i < |s|
      ensures Title(t)[i] == t[i]
    {
      assert i > 0 ==> IsCased(t[i - 1]) == IsCased(s[i - 1]);
    }
  }
}
