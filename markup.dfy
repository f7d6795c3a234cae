/**
 The tag stripper of the converter: `re.sub(r'<[^>]*>', '', body)`.

 The pattern matches a `<`, then any run of characters other than `>` (which
 may include further `<` and line breaks), then a `>`. Substitution scans left
 to right and removes each leftmost, non-overlapping match, so a match always
 runs from a `<` to the FIRST `>` after it. It is modelled here directly as a
 character scan, not through a regular-expression engine.
 */
module Markup {

  const Open: char := '<'
  const Close: char := '>'

  /** Index of the first `c` in `s`, or `|s|` when `s` holds no `c`. */
  function IndexOf(s: string, c: char): (k: nat)
    ensures k <= |s|
    ensures k < |s| ==> s[k] == c
    ensures forall i :: 0 <= i < k ==> s[i] != c
  {
    if s == [] then 0
    else if s[0] == c then 0
    else 1 + IndexOf(s[1..], c)
  }

  /**
   Removes every match of `<[^>]*>`. At a `<` that has a `>` somewhere after
   it, the match ends at the first such `>`; a `<` with no `>` after it starts
   no match and is kept.
   */
  function StripTags(s: string): string
    decreases |s|
  {
    if s == [] then []
    else
      var k := IndexOf(s[1..], Close);
      if s[0] == Open && k < |s| - 1 then StripTags(s[k + 2..])
      else [s[0]] + StripTags(s[1..])
  }

  /** `t` is exactly one match of the pattern `<[^>]*>`. */
  predicate IsTag(t: string) {
    && |t| >= 2
    && t[0] == Open
    && t[|t| - 1] == Close
    && forall k :: 0 < k < |t| - 1 ==> t[k] != Close
  }

  /** No `<` of `s` has a `>` anywhere after it. */
  predicate TagFree(s: string) {
    forall i, j :: 0 <= i < j < |s| && s[i] == Open ==> s[j] != Close
  }

  /** No substring of `s` matches the pattern. */
  predicate NoMatch(s: string) {
    forall i, j :: 0 <= i <= j <= |s| ==> !IsTag(s[i..j])
  }

  /** `r` is obtained from `s` by deleting characters (order kept). */
  ghost predicate IsSubsequence(r: string, s: string)
    decreases |s|
  {
    if r == [] then true
    else if s == [] then false
    else (r[0] == s[0] && IsSubsequence(r[1..], s[1..])) || IsSubsequence(r, s[1..])
  }

  lemma {:induction false} SubsequenceOfSuffix(r: string, s: string, j: nat)
    requires j <= |s|
    requires IsSubsequence(r, s[j..])
    ensures IsSubsequence(r, s)
    decreases j
  {
    if j > 0 {
      assert s[1..][j - 1..] == s[j..];
      SubsequenceOfSuffix(r, s[1..], j - 1);
      if r != [] {
        assert IsSubsequence(r, s[1..]);
      }
    }
  }

  lemma {:induction false} SubsequenceLength(r: string, s: string)
    requires IsSubsequence(r, s)
    ensures |r| <= |s|
    decreases |s|
  {
    if r != [] {
      if r[0] == s[0] && IsSubsequence(r[1..], s[1..]) {
        SubsequenceLength(r[1..], s[1..]);
      } else {
        SubsequenceLength(r, s[1..]);
      }
    }
  }

  lemma {:induction false} SubsequenceMembers(r: string, s: string, c: char)
    requires IsSubsequence(r, s)
    requires c in r
    ensures c in s
    decreases |s|
  {
    if r[0] == s[0] && IsSubsequence(r[1..], s[1..]) {
      if r[0] != c {
        SubsequenceMembers(r[1..], s[1..], c);
      }
    } else {
      SubsequenceMembers(r, s[1..], c);
    }
  }

  /** Stripping only deletes characters: the result is a subsequence of the body, kept in order. */
  lemma {:induction false} StripTagsDeletesOnly(s: string)
    ensures IsSubsequence(StripTags(s), s)
    ensures |StripTags(s)| <= |s|
    decreases |s|
  {
    if s != [] {
      var k := IndexOf(s[1..], Close);
      if s[0] == Open && k < |s| - 1 {
        StripTagsDeletesOnly(s[k + 2..]);
        SubsequenceOfSuffix(StripTags(s), s, k + 2);
      } else {
        StripTagsDeletesOnly(s[1..]);
        var r := StripTags(s);
        assert r[0] == s[0] && r[1..] == StripTags(s[1..]);
      }
    }
    SubsequenceLength(StripTags(s), s);
  }

  /** After stripping, no `<` is followed anywhere by a `>`. */
  lemma {:induction false} StripTagsTagFree(s: string)
    ensures TagFree(StripTags(s))
    decreases |s|
  {
    if s != [] {
      var k := IndexOf(s[1..], Close);
      if s[0] == Open && k < |s| - 1 {
        StripTagsTagFree(s[k + 2..]);
      } else {
        var rest := StripTags(s[1..]);
        StripTagsTagFree(s[1..]);
        if s[0] == Open {
          // no `>` in s[1..], hence none in its stripped form either
          assert Close !in s[1..];
          StripTagsDeletesOnly(s[1..]);
          if Close in rest {
            SubsequenceMembers(rest, s[1..], Close);
          }
        }
        var r := StripTags(s);
        assert r == [s[0]] + rest;
        forall i, j | 0 <= i < j < |r| && r[i] == Open
          ensures r[j] != Close
        {
          if i == 0 {
            assert r[j] == rest[j - 1];
          } else {
            assert r[i] == rest[i - 1] && r[j] == rest[j - 1];
          }
        }
      }
    }
  }

  /** A body in which no `<` has a `>` after it is returned unchanged. */
  lemma {:induction false} StripTagsOfTagFree(s: string)
    requires TagFree(s)
    ensures StripTags(s) == s
    decreases |s|
  {
    if s != [] {
      var t := s[1..];
      assert TagFree(t) by {
        forall i, j | 0 <= i < j < |t| && t[i] == Open ensures t[j] != Close {
          assert s[i + 1] == t[i] && s[j + 1] == t[j];
        }
      }
      if s[0] == Open {
        assert forall j :: 0 <= j < |t| ==> t[j] == s[j + 1];
        assert IndexOf(t, Close) == |t|;
      }
      StripTagsOfTagFree(t);
    }
  }

  /** Stripping is idempotent. */
  lemma StripTagsIdempotent(s: string)
    ensures StripTags(StripTags(s)) == StripTags(s)
  {
    StripTagsTagFree(s);
    StripTagsOfTagFree(StripTags(s));
  }

  /** A body is a fixed point of stripping exactly when no `<` in it has a `>` after it. */
  lemma StripTagsFixedIff(s: string)
    ensures StripTags(s) == s <==> TagFree(s)
  {
    StripTagsTagFree(s);
    if TagFree(s) {
      StripTagsOfTagFree(s);
    }
  }

  /** "No `<` has a `>` after it" is the same as "no substring matches `<[^>]*>`". */
  lemma TagFreeIffNoMatch(s: string)
    ensures TagFree(s) <==> NoMatch(s)
  {
    if TagFree(s) {
      forall i, j | 0 <= i <= j <= |s| ensures !IsTag(s[i..j]) {
        if j - i >= 2 {
          assert s[i..j][0] == s[i] && s[i..j][j - i - 1] == s[j - 1];
        }
      }
    }
    if !TagFree(s) {
      var i, j :| 0 <= i < j < |s| && s[i] == Open && s[j] == Close;
      var k := i + 1 + IndexOf(s[i + 1..], Close);
      assert s[i + 1..][j - i - 1] == s[j];
      assert k <= j;
      var t := s[i..k + 1];
      forall m | 0 < m < |t| - 1 ensures t[m] != Close {
        assert t[m] == s[i + 1..][m - 1];
      }
      assert IsTag(t);
    }
  }

  /** No match of the pattern survives stripping. */
  lemma StripTagsLeavesNoMatch(s: string)
    ensures NoMatch(StripTags(s))
  {
    StripTagsTagFree(s);
    TagFreeIffNoMatch(StripTags(s));
  }

  /** A body that contains no `<` at all is returned unchanged. */
  lemma StripTagsWithoutOpen(s: string)
    requires Open !in s
    ensures StripTags(s) == s
  {
    StripTagsOfTagFree(s);
  }

  /** Text before the first `<` is kept verbatim. */
  lemma {:induction false} StripTagsPlainPrefix(x: string, y: string)
    requires Open !in x
    ensures StripTags(x + y) == x + StripTags(y)
    decreases |x|
  {
    if x != [] {
      assert (x + y)[1..] == x[1..] + y;
      StripTagsPlainPrefix(x[1..], y);
    } else {
      assert x + y == y;
    }
  }

  /** A leading tag `<t>` is removed whole and scanning resumes right after its `>`. */
  lemma StripTagsLeadingTag(t: string, y: string)
    requires Close !in t
    ensures StripTags([Open] + t + [Close] + y) == StripTags(y)
  {
    var s := [Open] + t + [Close] + y;
    var u := s[1..];
    assert u == t + [Close] + y;
    assert u[|t|] == Close;
    assert forall i :: 0 <= i < |t| ==> u[i] == t[i];
    assert IndexOf(u, Close) == |t|;
    assert s[|t| + 2..] == y;
  }

  /** An element `<name>text</name>` whose text contains no `<` strips to its text. */
  lemma StripTagsElement(name: string, text: string)
    requires Close !in name && Open !in text
    ensures StripTags([Open] + name + [Close] + text + [Open, '/'] + name + [Close]) == text
  {
    var closing := [Open] + ("/" + name) + [Close] + [];
    assert Close !in "/" + name;
    StripTagsLeadingTag("/" + name, []);
    StripTagsPlainPrefix(text, closing);
    StripTagsLeadingTag(name, text + closing);
    assert [Open] + name + [Close] + (text + closing)
        == [Open] + name + [Close] + text + [Open, '/'] + name + [Close];
    assert text + [] == text;
  }

  /** A paragraph `<p>text</p>` whose text contains no `<` strips to its text. */
  lemma StripTagsParagraphOf(text: string)
    requires Open !in text
    ensures StripTags("<p>" + text + "</p>") == text
  {
    var name := "p";
    StripTagsElement(name, text);
    assert [Open] + name + [Close] + text + [Open, '/'] + name + [Close] == "<p>" + text + "</p>";
  }

  lemma StripTagsParagraph()
    ensures StripTags("<p>Hello</p>") == "Hello"
  {
    StripTagsParagraphOf("Hello");
    assert "<p>" + "Hello" + "</p>" == "<p>Hello</p>";
  }

  lemma StripTagsNestedOpen()
    ensures StripTags("<<a>b") == "b"
  {
    assert "<<a>b" == [Open] + "<a" + [Close] + "b";
    StripTagsLeadingTag("<a", "b");
    StripTagsWithoutOpen("b");
  }

  lemma StripTagsUnterminated()
    ensures StripTags("a>b<c") == "a>b<c"
  {
    var s := "a>b<c";
    assert TagFree(s) by {
      forall i, j | 0 <= i < j < |s| && s[i] == Open ensures s[j] != Close {
        assert i == 3;
      }
    }
    StripTagsOfTagFree(s);
  }
}
