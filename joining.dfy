/**
 `' '.join(content)`: the stripped bodies concatenated in order with one space
 between consecutive parts, none before the first and none after the last.
 */
module Joining {

  const Space: char := ' '

  function Join(parts: seq<string>): string
  {
    if |parts| == 0 then ""
    else if |parts| == 1 then parts[0]
    else parts[0] + [Space] + Join(parts[1..])
  }

  /** Sum of the lengths of the parts. */
  function TotalLength(parts: seq<string>): nat
  {
    if parts == [] then 0 else |parts[0]| + TotalLength(parts[1..])
  }

  /** Where part `i` starts in the joined text: every earlier part plus its separator. */
  function Offset(parts: seq<string>, i: nat): nat
    requires i <= |parts|
  {
    if i == 0 then 0 else Offset(parts, i - 1) + |parts[i - 1]| + 1
  }

  /**
   Python's `str.split(' ')`: the maximal space-free runs of `s`, including
   empty ones between adjacent spaces and at either end. Used as the inverse
   of `Join`.
   */
  function Split(s: string): (r: seq<string>)
    ensures |r| >= 1
  {
    if s == [] then [""]
    else
      var rest := Split(s[1..]);
      if s[0] == Space then [""] + rest
      else [[s[0]] + rest[0]] + rest[1..]
  }

  /** Joining no parts gives the empty text. */
  lemma JoinEmpty()
    ensures Join([]) == ""
  {
  }

  /** The joined text has the parts' lengths plus one separator between each pair. */
  lemma {:induction false} JoinLength(parts: seq<string>)
    requires |parts| > 0
    ensures |Join(parts)| == TotalLength(parts) + |parts| - 1
  {
    if |parts| > 1 {
      JoinLength(parts[1..]);
    }
  }

  lemma {:induction false} OffsetOfTail(parts: seq<string>, i: nat)
    requires 0 < i <= |parts|
    ensures Offset(parts, i) == |parts[0]| + 1 + Offset(parts[1..], i - 1)
  {
    if i > 1 {
      OffsetOfTail(parts, i - 1);
    }
  }

  /**
   Part `i` sits verbatim at `Offset(parts, i)`; it is followed by exactly one
   space when another part comes after it, and it ends the text when it is the
   last part.
   */
  lemma {:induction false} JoinAt(parts: seq<string>, i: nat)
    requires i < |parts|
    ensures Offset(parts, i) + |parts[i]| <= |Join(parts)|
    ensures Join(parts)[Offset(parts, i)..Offset(parts, i) + |parts[i]|] == parts[i]
    ensures i + 1 < |parts| ==>
      Offset(parts, i) + |parts[i]| < |Join(parts)| && Join(parts)[Offset(parts, i) + |parts[i]|] == Space
    ensures i + 1 == |parts| ==> Offset(parts, i) + |parts[i]| == |Join(parts)|
  {
    var j := Join(parts);
    if |parts| == 1 {
    } else if i == 0 {
      assert j == parts[0] + [Space] + Join(parts[1..]);
      assert j[..|parts[0]|] == parts[0];
    } else {
      var tail := Join(parts[1..]);
      assert j == parts[0] + [Space] + tail;
      JoinAt(parts[1..], i - 1);
      OffsetOfTail(parts, i);
      var o := Offset(parts[1..], i - 1);
      var d := |parts[0]| + 1;
      assert j[d..] == tail;
      assert j[d + o..d + o + |parts[i]|] == tail[o..o + |parts[i]|];
    }
  }

  lemma {:induction false} SplitPrefix(p: string, t: string)
    requires Space !in p
    ensures Split(p + t) == [p + Split(t)[0]] + Split(t)[1..]
    decreases |p|
  {
    if p != [] {
      assert (p + t)[1..] == p[1..] + t;
      SplitPrefix(p[1..], t);
      assert [p[0]] + (p[1..] + Split(t)[0]) == p + Split(t)[0];
    } else {
      assert p + t == t;
      assert p + Split(t)[0] == Split(t)[0];
      assert Split(t) == [Split(t)[0]] + Split(t)[1..];
    }
  }

  /** Splitting the joined text on spaces gives the parts back when no part holds a space. */
  lemma {:induction false} SplitJoin(parts: seq<string>)
    requires |parts| > 0
    requires forall k :: 0 <= k < |parts| ==> Space !in parts[k]
    ensures Split(Join(parts)) == parts
  {
    if |parts| == 1 {
      SplitPrefix(parts[0], []);
      assert parts[0] + [] == parts[0];
    } else {
      var tail := Join(parts[1..]);
      SplitJoin(parts[1..]);
      assert Join(parts) == parts[0] + ([Space] + tail);
      SplitPrefix(parts[0], [Space] + tail);
      assert ([Space] + tail)[1..] == tail;
      assert parts[0] + "" == parts[0];
      assert parts == [parts[0]] + parts[1..];
    }
  }

  lemma JoinHelloWorld()
    ensures Join(["Hello", "World!"]) == "Hello World!"
  {
    var parts := ["Hello", "World!"];
    assert parts[1..] == ["World!"];
  }
}
