/**
 Output-path derivation: `file.replace(".epub", ".txt")`. Python's
 `str.replace` without a count replaces EVERY non-overlapping occurrence,
 scanning from the left, not only the first one.
 */
module Paths {

  const EpubExt: string := ".epub"
  const TxtExt: string := ".txt"

  /** `pat` occurs in `s` starting at index `i`. */
  predicate OccursAt(s: string, pat: string, i: nat) {
    i + |pat| <= |s| && s[i..i + |pat|] == pat
  }

  predicate Occurs(s: string, pat: string) {
    exists i: nat :: i <= |s| && OccursAt(s, pat, i)
  }

  /** Replaces every non-overlapping occurrence of `pat` in `s`, left to right. */
  function ReplaceAll(s: string, pat: string, rep: string): string
    requires |pat| > 0
    decreases |s|
  {
    if |s| < |pat| then s
    else if s[..|pat|] == pat then rep + ReplaceAll(s[|pat|..], pat, rep)
    else [s[0]] + ReplaceAll(s[1..], pat, rep)
  }

  /** Number of occurrences `ReplaceAll` rewrites: non-overlapping, left to right. */
  function Count(s: string, pat: string): nat
    requires |pat| > 0
    decreases |s|
  {
    if |s| < |pat| then 0
    else if s[..|pat|] == pat then 1 + Count(s[|pat|..], pat)
    else Count(s[1..], pat)
  }

  /** The path the text is written to and that `parse` returns. */
  function OutputPath(file: string): string
  {
    ReplaceAll(file, EpubExt, TxtExt)
  }

  lemma OccursInTail(s: string, pat: string, i: nat)
    requires |s| > 0 && OccursAt(s[1..], pat, i)
    ensures OccursAt(s, pat, i + 1)
  {
    assert s[1..][i..i + |pat|] == s[i + 1..i + 1 + |pat|];
  }

  /** A string without any occurrence of the pattern is left as it is. */
  lemma {:induction false} ReplaceAllWithoutOccurrence(s: string, pat: string, rep: string)
    requires |pat| > 0
    requires !Occurs(s, pat)
    ensures ReplaceAll(s, pat, rep) == s
    decreases |s|
  {
    if |s| >= |pat| {
      assert !OccursAt(s, pat, 0);
      assert s[..|pat|] != pat;
      forall i: nat ensures !OccursAt(s[1..], pat, i) {
        if OccursAt(s[1..], pat, i) {
          OccursInTail(s, pat, i);
        }
      }
      ReplaceAllWithoutOccurrence(s[1..], pat, rep);
      assert [s[0]] + s[1..] == s;
    }
  }

  /** Each rewrite of `.epub` into `.txt` shortens the path by one character. */
  lemma {:induction false} OutputPathLength(file: string)
    ensures |OutputPath(file)| == |file| - Count(file, EpubExt)
    decreases |file|
  {
    if |file| >= |EpubExt| {
      if file[..|EpubExt|] == EpubExt {
        OutputPathLength(file[|EpubExt|..]);
      } else {
        OutputPathLength(file[1..]);
      }
    }
  }

  /** An occurrence anywhere means at least one rewrite. */
  lemma {:induction false} CountPositive(s: string, pat: string, i: nat)
    requires |pat| > 0
    requires OccursAt(s, pat, i)
    ensures Count(s, pat) >= 1
    decreases |s|
  {
    if s[..|pat|] != pat {
      assert i != 0;
      assert s[1..][i - 1..i - 1 + |pat|] == s[i..i + |pat|];
      CountPositive(s[1..], pat, i - 1);
    }
  }

  /** A path is its own output path exactly when it contains no `.epub`. */
  lemma OutputPathUnchangedIff(file: string)
    ensures OutputPath(file) == file <==> !Occurs(file, EpubExt)
  {
    if Occurs(file, EpubExt) {
      var i: nat :| OccursAt(file, EpubExt, i);
      CountPositive(file, EpubExt, i);
      OutputPathLength(file);
    } else {
      ReplaceAllWithoutOccurrence(file, EpubExt, TxtExt);
    }
  }

  /** A prefix without any `.` passes through the rewrite unchanged. */
  lemma {:induction false} DotFreePrefixKept(u: string, n: nat)
    requires n <= |u|
    requires forall m :: 0 <= m < n ==> u[m] != '.'
    ensures OutputPath(u) == u[..n] + OutputPath(u[n..])
    decreases n
  {
    if n > 0 {
      if |u| >= |EpubExt| {
        assert u[..|EpubExt|][0] == u[0];
      }
      var t := u[1..];
      DotFreePrefixKept(t, n - 1);
      assert t[n - 1..] == u[n..];
      assert [u[0]] + t[..n - 1] == u[..n];
    }
  }

  /** The output of a string starting with `.` starts with `.` too. */
  lemma DotStaysFirst(v: string)
    requires |v| > 0 && v[0] == '.'
    ensures |OutputPath(v)| > 0 && OutputPath(v)[0] == '.'
  {
  }

  /**
   A leading `.` that does not start `.epub` in the input does not start one
   in the output either.
   */
  lemma NoEpubAfterDot(s: string)
    requires |s| >= |EpubExt| && s[0] == '.' && s[..|EpubExt|] != EpubExt
    ensures !OccursAt([s[0]] + OutputPath(s[1..]), EpubExt, 0)
  {
    var u := s[1..];
    var r := OutputPath(u);
    var w := [s[0]] + r;
    if j :| 0 <= j < 4 && u[j] == '.' {
      var j0 := FirstDot(u, j);
      DotFreePrefixKept(u, j0);
      DotStaysFirst(u[j0..]);
      assert r[j0] == '.';
      if |w| >= |EpubExt| {
        assert w[..|EpubExt|][j0 + 1] == '.';
        assert EpubExt[j0 + 1] != '.';
      }
    } else {
      DotFreePrefixKept(u, 4);
      assert r[..4] == u[..4];
      assert s[..|EpubExt|] == [s[0]] + u[..4];
      assert w[..|EpubExt|] == [s[0]] + r[..4];
    }
  }

  /** The first `.` of `u` at or before index `j`. */
  function FirstDot(u: string, j: nat): (k: nat)
    requires j < |u| && u[j] == '.'
    ensures k <= j && u[k] == '.'
    ensures forall m :: 0 <= m < k ==> u[m] != '.'
  {
    if u[0] == '.' then 0 else 1 + FirstDot(u[1..], j - 1)
  }

  /** Every `.epub` is rewritten: the output path contains none. */
  lemma {:induction false} OutputPathHasNoEpub(file: string)
    ensures !Occurs(OutputPath(file), EpubExt)
    decreases |file|
  {
    var r := OutputPath(file);
    if |file| < |EpubExt| {
      assert r == file;
    } else if file[..|EpubExt|] == EpubExt {
      var rest := OutputPath(file[|EpubExt|..]);
      OutputPathHasNoEpub(file[|EpubExt|..]);
      assert r == TxtExt + rest;
      forall i: nat ensures !OccursAt(r, EpubExt, i) {
        if i >= |TxtExt| {
          if i + |EpubExt| <= |r| {
            assert r[i..i + |EpubExt|] == rest[i - 4..i - 4 + |EpubExt|];
            assert !OccursAt(rest, EpubExt, i - 4);
          }
        } else if i + |EpubExt| <= |r| {
          assert r[i..i + |EpubExt|][0] == r[i];
          assert r[i..i + |EpubExt|][1] == r[i + 1];
        }
      }
    } else {
      var rest := OutputPath(file[1..]);
      OutputPathHasNoEpub(file[1..]);
      assert r == [file[0]] + rest;
      forall i: nat ensures !OccursAt(r, EpubExt, i) {
        if i > 0 {
          if i + |EpubExt| <= |r| {
            assert r[i..i + |EpubExt|] == rest[i - 1..i - 1 + |EpubExt|];
            assert !OccursAt(rest, EpubExt, i - 1);
          }
        } else if file[0] == '.' {
          NoEpubAfterDot(file);
        } else if i + |EpubExt| <= |r| {
          assert r[..|EpubExt|][0] == file[0];
        }
      }
    }
  }

  /**
   The first `.epub` of a path becomes `.txt`, the text before it is kept, and
   the rewrite goes on after it. With `ReplaceAllWithoutOccurrence` this
   determines the output path of every input.
   */
  lemma {:induction false} OutputPathAtFirst(x: string, y: string)
    requires !Occurs(x, EpubExt)
    ensures OutputPath(x + EpubExt + y) == x + TxtExt + OutputPath(y)
    decreases |x|
  {
    var s := x + EpubExt + y;
    if x == [] {
      assert s == EpubExt + y;
      assert s[..|EpubExt|] == EpubExt;
      assert s[|EpubExt|..] == y;
    } else {
      assert s[..|EpubExt|] != EpubExt by {
        if |x| >= |EpubExt| {
          assert s[..|EpubExt|] == x[..|EpubExt|];
          assert !OccursAt(x, EpubExt, 0);
        } else if x[0] == '.' {
          assert s[..|EpubExt|][|x|] == EpubExt[0];
          assert EpubExt[|x|] != '.';
        } else {
          assert s[..|EpubExt|][0] == x[0];
        }
      }
      var x' := x[1..];
      forall i: nat | i <= |x'| ensures !OccursAt(x', EpubExt, i) {
        if OccursAt(x', EpubExt, i) {
          OccursInTail(x, EpubExt, i);
        }
      }
      assert s[1..] == x' + EpubExt + y;
      OutputPathAtFirst(x', y);
      assert [x[0]] + (x' + TxtExt + OutputPath(y)) == x + TxtExt + OutputPath(y);
    }
  }

  lemma OutputPathOfExtension()
    ensures OutputPath(EpubExt) == TxtExt
  {
    assert EpubExt[..|EpubExt|] == EpubExt;
    assert EpubExt[|EpubExt|..] == [];
    assert TxtExt + [] == TxtExt;
  }

  lemma OutputPathBook()
    ensures OutputPath("book.epub") == "book.txt"
  {
    var u := "book.epub";
    DotFreePrefixKept(u, 4);
    assert u[4..] == EpubExt;
    OutputPathOfExtension();
    assert u[..4] + TxtExt == "book.txt";
  }

  lemma OutputPathDoubled()
    ensures OutputPath("a.epub.epub") == "a.txt.txt"
  {
    var u := "a.epub.epub";
    DotFreePrefixKept(u, 1);
    var v := u[1..];
    assert v[..|EpubExt|] == EpubExt;
    assert v[|EpubExt|..] == EpubExt;
    OutputPathOfExtension();
    assert OutputPath(v) == TxtExt + TxtExt;
    assert u[..1] + (TxtExt + TxtExt) == "a.txt.txt";
  }

  lemma OutputPathWithoutExtension()
    ensures OutputPath("book.txt") == "book.txt"
  {
    var u := "book.txt";
    forall i: nat ensures !OccursAt(u, EpubExt, i) {
      if i + |EpubExt| <= |u| {
        assert u[i..i + |EpubExt|][1] == u[i + 1];
      }
    }
    ReplaceAllWithoutOccurrence(u, EpubExt, TxtExt);
  }
}
