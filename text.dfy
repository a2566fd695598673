/** String operations the handlers rely on, with JavaScript's meaning:
    `String.prototype.trim`, `endsWith`, ASCII case folding and substring search. */
module Text {
  import opened Common

  /** White space and line terminators as JavaScript defines them: the
      characters `trim()` removes and the regular-expression class `\s` matches. */
  predicate IsJsSpace(c: char)
  {
    c == '\t' || c == '\n' || c == '\U{000B}' || c == '\U{000C}' || c == '\r' || c == ' '
    || c == '\U{00A0}' || c == '\U{1680}' || ('\U{2000}' <= c <= '\U{200A}')
    || c == '\U{2028}' || c == '\U{2029}' || c == '\U{202F}' || c == '\U{205F}'
    || c == '\U{3000}' || c == '\U{FEFF}'
  }

  /** Drops leading white space. */
  function TrimStart(s: string): (r: string)
    ensures |r| <= |s|
  {
    if s != [] && IsJsSpace(s[0]) then TrimStart(s[1..]) else s
  }

  /** What TrimStart keeps is a suffix of `s` that does not start with
      white space, and everything it drops is white space. */
  lemma {:induction false} TrimStartFacts(s: string)
    ensures var r := TrimStart(s);
      && r == s[|s| - |r|..]
      && (r == [] || !IsJsSpace(r[0]))
      && (forall i :: 0 <= i < |s| - |r| ==> IsJsSpace(s[i]))
  {
    if s != [] && IsJsSpace(s[0]) {
      TrimStartFacts(s[1..]);
      var r := TrimStart(s);
      forall i | 0 <= i < |s| - |r| ensures IsJsSpace(s[i]) {
        if i > 0 {
          assert s[i] == s[1..][i - 1];
        }
      }
    }
  }

  /** Drops trailing white space. */
  function TrimEnd(s: string): (r: string)
    ensures |r| <= |s|
  {
    if s != [] && IsJsSpace(s[|s| - 1]) then TrimEnd(s[..|s| - 1]) else s
  }

  /** What TrimEnd keeps is a prefix of `s` that does not end with white
      space, and everything it drops is white space. */
  lemma {:induction false} TrimEndFacts(s: string)
    ensures var r := TrimEnd(s);
      && r == s[..|r|]
      && (r == [] || !IsJsSpace(r[|r| - 1]))
      && (forall i :: |r| <= i < |s| ==> IsJsSpace(s[i]))
  {
    if s != [] && IsJsSpace(s[|s| - 1]) {
      TrimEndFacts(s[..|s| - 1]);
    }
  }

  /** `s.trim()`: drops white space at both ends. */
  function Trim(s: string): (r: string)
    ensures |r| <= |s|
  {
    TrimEnd(TrimStart(s))
  }

  /** What `trim()` keeps is a slice of `s` with no white space at either
      end, and everything cut off on either side of it is white space. */
  lemma TrimIsCut(s: string)
    ensures CutAt(s, Trim(s), |s| - |TrimStart(s)|)
    ensures Trim(s) != [] ==> !IsJsSpace(Trim(s)[0]) && !IsJsSpace(Trim(s)[|Trim(s)| - 1])
  {
    var t := TrimStart(s);
    var r := TrimEnd(t);
    var a := |s| - |t|;
    TrimStartFacts(s);
    TrimEndFacts(t);
    assert r == s[a..a + |r|];
    forall i | a + |r| <= i < |s| ensures IsJsSpace(s[i]) {
      assert s[i] == t[i - a];
    }
    if r != [] {
      assert r[0] == t[0];
    }
  }

  /** `r` is the slice of `s` starting at `a`, and everything outside it is white space. */
  predicate CutAt(s: string, r: string, a: int)
  {
    0 <= a <= |s| - |r| && r == s[a..a + |r|]
    && (forall i :: 0 <= i < a ==> IsJsSpace(s[i]))
    && (forall i :: a + |r| <= i < |s| ==> IsJsSpace(s[i]))
  }

  /** Trimming is idempotent: a value that passed through `trim()` once
      (as every stored name and description has) is unchanged by a second trim. */
  lemma TrimIdempotent(s: string)
    ensures Trim(Trim(s)) == Trim(s)
  {
    var r := Trim(s);
    TrimIsCut(s);
    if r != [] {
      assert TrimStart(r) == r;
      assert TrimEnd(r) == r;
    }
  }

  /** Nothing but white space (or nothing at all). */
  predicate Blank(s: string)
  {
    forall i :: 0 <= i < |s| ==> IsJsSpace(s[i])
  }

  /** A string of white space only trims to the empty string, and only such a string does. */
  lemma TrimEmptyIffBlank(s: string)
    ensures Trim(s) == [] <==> Blank(s)
  {
    var t := TrimStart(s);
    TrimStartFacts(s);
    TrimEndFacts(t);
    if !Blank(s) {
      var k :| 0 <= k < |s| && !IsJsSpace(s[k]);
      assert k >= |s| - |t|;
      assert t[k - (|s| - |t|)] == s[k];
      var r := TrimEnd(t);
      assert k - (|s| - |t|) < |r|;
    }
  }

  /** Leading white space makes no difference to TrimStart. */
  lemma {:induction false} TrimStartSkipsBlank(pre: string, s: string)
    requires Blank(pre)
    ensures TrimStart(pre + s) == TrimStart(s)
  {
    if pre != [] {
      assert (pre + s)[0] == pre[0];
      assert (pre + s)[1..] == pre[1..] + s;
      TrimStartSkipsBlank(pre[1..], s);
    } else {
      assert pre + s == s;
    }
  }

  /** Trailing white space makes no difference to TrimEnd. */
  lemma {:induction false} TrimEndSkipsBlank(s: string, post: string)
    requires Blank(post)
    ensures TrimEnd(s + post) == TrimEnd(s)
  {
    if post != [] {
      var q := s + post;
      assert q[|q| - 1] == post[|post| - 1];
      assert q[..|q| - 1] == s + post[..|post| - 1];
      TrimEndSkipsBlank(s, post[..|post| - 1]);
    } else {
      assert s + post == s;
    }
  }

  /** TrimStart of `s` followed by white space: the white space stays
      behind whatever TrimStart keeps of `s`, and all of it goes when `s`
      is blank. */
  lemma {:induction false} TrimStartBeforeBlank(s: string, post: string)
    requires Blank(post)
    ensures TrimStart(s) != [] ==> TrimStart(s + post) == TrimStart(s) + post
    ensures TrimStart(s) == [] ==> TrimStart(s + post) == []
  {
    if s == [] {
      assert s + post == post;
      assert TrimStart(post + []) == TrimStart([]) by {
        TrimStartSkipsBlank(post, []);
      }
      assert post + [] == post;
    } else {
      assert (s + post)[0] == s[0];
      assert (s + post)[1..] == s[1..] + post;
      if IsJsSpace(s[0]) {
        TrimStartBeforeBlank(s[1..], post);
      }
    }
  }

  /** White space around a value never changes what `trim()` makes of it. */
  lemma TrimPadded(pre: string, s: string, post: string)
    requires Blank(pre) && Blank(post)
    ensures Trim(pre + s + post) == Trim(s)
  {
    assert pre + s + post == pre + (s + post);
    TrimStartSkipsBlank(pre, s + post);
    TrimStartBeforeBlank(s, post);
    if TrimStart(s) != [] {
      TrimEndSkipsBlank(TrimStart(s), post);
    }
  }

  /** `s?.trim() || null`: an optional text field as the handlers store it,
      where a missing or blank value becomes null. */
  function TrimOrNull(s: Option<string>): (r: Option<string>)
    ensures r.None? <==> s.None? || Trim(s.value) == []
    ensures r.Some? ==> r.value == Trim(s.value) && r.value != []
  {
    if s.None? || Trim(s.value) == [] then None else Some(Trim(s.value))
  }

  /** `s.endsWith(suffix)`. */
  predicate EndsWith(s: string, suffix: string)
  {
    |suffix| <= |s| && s[|s| - |suffix|..] == suffix
  }

  /** The e-mail rule of the academic-project feature: an address of
      the university's staff or student domain. */
  predicate IsSwinburneEmail(email: string)
  {
    EndsWith(email, "@swin.edu.au") || EndsWith(email, "@student.swin.edu.au")
  }

  predicate IsAsciiUpper(c: char) { 'A' <= c <= 'Z' }
  predicate IsAsciiLower(c: char) { 'a' <= c <= 'z' }
  predicate IsAsciiDigit(c: char) { '0' <= c <= '9' }

  /** Lower-cases ASCII letters and keeps every other character. */
  function ToLower(s: string): (r: string)
    ensures |r| == |s|
    ensures forall i :: 0 <= i < |s| ==> !IsAsciiUpper(r[i])
    ensures forall i :: 0 <= i < |s| && !IsAsciiUpper(s[i]) ==> r[i] == s[i]
  {
    seq(|s|, i requires 0 <= i < |s| =>
      if IsAsciiUpper(s[i]) then (s[i] as int + 32) as char else s[i])
  }

  /** `needle` occurs in `hay` as a contiguous slice (SQL `LIKE '%needle%'`
      when the needle holds no wildcard). */
  predicate Contains(hay: string, needle: string)
  {
    exists i :: 0 <= i <= |hay| - |needle| && OccursAt(hay, needle, i)
  }

  predicate OccursAt(hay: string, needle: string, i: int)
    requires 0 <= i <= |hay| - |needle|
  {
    hay[i..i + |needle|] == needle
  }

  /** Case folding makes the match symmetric in letter case: a needle
      found in a string is found, folded, in the folded string. */
  lemma ContainsFolded(hay: string, needle: string)
    requires Contains(hay, needle)
    ensures Contains(ToLower(hay), ToLower(needle))
  {
    var i :| 0 <= i <= |hay| - |needle| && OccursAt(hay, needle, i);
    var lh, ln := ToLower(hay), ToLower(needle);
    forall k | 0 <= k < |needle|
      ensures lh[i + k] == ln[k]
    {
      assert hay[i + k] == needle[k];
    }
    assert OccursAt(lh, ln, i);
  }
}
