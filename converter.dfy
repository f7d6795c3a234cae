/**
 `epub.parse(file)`: strips the markup of every document item in item order,
 joins the results with single spaces, and writes that text to the path
 obtained by rewriting `.epub` to `.txt`, which it returns.

 Opening the book and listing its document items belong to the external
 e-book library; here the item bodies are the input `bodies`, in the order
 the library returns them. The file write is modelled as the output value
 `written`: the text that the returned path receives.
 */
module Converter {
  import opened Markup
  import opened Joining
  import opened Paths

  /** One entry per document item, in item order: the item's body with its tags stripped. */
  function Stripped(bodies: seq<string>): seq<string>
  {
    seq(|bodies|, i requires 0 <= i < |bodies| => StripTags(bodies[i]))
  }

  /** The text that the output file receives. */
  function ConvertedText(bodies: seq<string>): string
  {
    Join(Stripped(bodies))
  }

  /**
   The conversion pipeline: accumulate the stripped bodies, derive the output
   path, and produce the text it is written with.
   */
  method Parse(bodies: seq<string>, file: string) returns (written: string, newFile: string)
    ensures written == ConvertedText(bodies)
    ensures newFile == OutputPath(file)
  {
    var content: seq<string> := [];
    for i := 0 to |bodies|
      invariant |content| == i
      invariant forall k :: 0 <= k < i ==> content[k] == StripTags(bodies[k])
    {
      content := content + [StripTags(bodies[i])];
    }
    assert content == Stripped(bodies);
    newFile := OutputPath(file);
    written := Join(content);
  }

  /** A book with no document items is written as an empty file. */
  lemma ConvertedTextOfNoItems()
    ensures ConvertedText([]) == ""
  {
    assert Stripped([]) == [];
  }

  /**
   For a non-empty book the text is as long as the stripped bodies together
   plus one separator between each consecutive pair, and never longer than
   the raw bodies plus those separators.
   */
  lemma ConvertedTextLength(bodies: seq<string>)
    requires |bodies| > 0
    ensures |ConvertedText(bodies)| == TotalLength(Stripped(bodies)) + |bodies| - 1
    ensures |ConvertedText(bodies)| <= TotalLength(bodies) + |bodies| - 1
  {
    JoinLength(Stripped(bodies));
    StrippedNoLonger(bodies);
  }

  lemma {:induction false} StrippedNoLonger(bodies: seq<string>)
    ensures TotalLength(Stripped(bodies)) <= TotalLength(bodies)
  {
    if bodies != [] {
      StrippedNoLonger(bodies[1..]);
      StripTagsDeletesOnly(bodies[0]);
      assert Stripped(bodies)[1..] == Stripped(bodies[1..]);
    }
  }

  /**
   Item `i`'s stripped body appears verbatim at its offset in the text, with
   exactly one space after it unless it is the last item, and it carries no
   tag match.
   */
  lemma ConvertedTextItem(bodies: seq<string>, i: nat)
    requires i < |bodies|
    ensures Offset(Stripped(bodies), i) + |StripTags(bodies[i])| <= |ConvertedText(bodies)|
    ensures ConvertedText(bodies)[Offset(Stripped(bodies), i)..Offset(Stripped(bodies), i) + |StripTags(bodies[i])|]
         == StripTags(bodies[i])
    ensures i + 1 < |bodies| ==>
      && Offset(Stripped(bodies), i) + |StripTags(bodies[i])| < |ConvertedText(bodies)|
      && ConvertedText(bodies)[Offset(Stripped(bodies), i) + |StripTags(bodies[i])|] == Space
    ensures i + 1 == |bodies| ==> Offset(Stripped(bodies), i) + |StripTags(bodies[i])| == |ConvertedText(bodies)|
    ensures NoMatch(StripTags(bodies[i]))
  {
    var parts := Stripped(bodies);
    assert parts[i] == StripTags(bodies[i]);
    assert ConvertedText(bodies) == Join(parts);
    JoinAt(parts, i);
    StripTagsLeavesNoMatch(bodies[i]);
  }

  /**
   A book of two paragraphs `<p>a</p>` and `<p>b</p>` is written as `a b`;
   for instance `<p>Hello</p>` and `<p>World!</p>` give `Hello World!`.
   */
  lemma ConvertedTextTwoParagraphs(a: string, b: string)
    requires Open !in a && Open !in b
    ensures ConvertedText(["<p>" + a + "</p>", "<p>" + b + "</p>"]) == a + " " + b
  {
    var bodies := ["<p>" + a + "</p>", "<p>" + b + "</p>"];
    StripTagsParagraphOf(a);
    StripTagsParagraphOf(b);
    var parts := Stripped(bodies);
    assert parts == [a, b];
    assert parts[1..] == [b];
    assert Join(parts) == a + [Space] + b;
  }
}
