/**
 * `search` and `search_engine` (test.py): the hits the search server
 * returns for a query are merged into one result list, then split again
 * into text and image results by the file suffix of each result.
 * The server's relevance ranking is not modelled: the hits of each
 * collection are inputs, in the order the server returns them.
 */
module Query {
  import opened PyStr
  import opened Cleaning
  import opened Images

  /** The text hits with citation markers removed, one per hit. */
  function CleanHits(hits: seq<string>): (r: seq<string>)
    ensures |r| == |hits|
    ensures forall k :: 0 <= k < |r| ==> |r[k]| <= |hits[k]|
  {
    seq(|hits|, k requires 0 <= k < |hits| => RemoveCitations(hits[k]))
  }

  /** `search`: the cleaned text hits in order, then the image paths in
      order. */
  method Search(textHits: seq<string>, imageHits: seq<string>) returns (results: seq<string>)
    ensures |results| == |textHits| + |imageHits|
    ensures forall k :: 0 <= k < |textHits| ==> results[k] == RemoveCitations(textHits[k])
    ensures results[|textHits|..] == imageHits
    ensures results == CleanHits(textHits) + imageHits
  {
    results := [];
    var i := 0;
    while i < |textHits|
      invariant 0 <= i <= |textHits|
      invariant results == CleanHits(textHits[..i])
    {
      var cleanedResult := RemoveCitations(textHits[i]);
      results := results + [cleanedResult];
      i := i + 1;
    }
    assert textHits[..i] == textHits;
    var j := 0;
    while j < |imageHits|
      invariant 0 <= j <= |imageHits|
      invariant results == CleanHits(textHits) + imageHits[..j]
    {
      results := results + [imageHits[j]];
      j := j + 1;
    }
    assert imageHits[..j] == imageHits;
  }

  /** `result.endswith(('.jpg', '.png', '.jpeg'))`. */
  predicate IsImageName(s: string)
  {
    EndsWith(s, ".jpg") || EndsWith(s, ".png") || EndsWith(s, ".jpeg")
  }

  /** The results that are not image names, in order. */
  function TextResults(rs: seq<string>): (r: seq<string>)
    ensures |r| <= |rs|
    ensures forall k :: 0 <= k < |r| ==> !IsImageName(r[k])
  {
    if rs == [] then []
    else if IsImageName(rs[0]) then TextResults(rs[1..])
    else [rs[0]] + TextResults(rs[1..])
  }

  /** The results that are image names, in order. */
  function ImageResults(rs: seq<string>): (r: seq<string>)
    ensures |r| <= |rs|
    ensures forall k :: 0 <= k < |r| ==> IsImageName(r[k])
  {
    if rs == [] then []
    else if IsImageName(rs[0]) then [rs[0]] + ImageResults(rs[1..])
    else ImageResults(rs[1..])
  }

  /** Every result lands in exactly one of the two lists: together they hold
      the results with their multiplicities, and their lengths add up. */
  lemma {:induction false} PartitionIsExact(rs: seq<string>)
    ensures multiset(TextResults(rs)) + multiset(ImageResults(rs)) == multiset(rs)
    ensures |TextResults(rs)| + |ImageResults(rs)| == |rs|
  {
    if rs != [] {
      PartitionIsExact(rs[1..]);
      assert rs == [rs[0]] + rs[1..];
    }
  }

  /** A value is an image result exactly when it is a result with an image
      suffix, and a text result exactly when it is a result without one. */
  lemma {:induction false} PartitionMembership(rs: seq<string>)
    ensures forall x :: x in ImageResults(rs) <==> x in rs && IsImageName(x)
    ensures forall x :: x in TextResults(rs) <==> x in rs && !IsImageName(x)
  {
    if rs != [] {
      PartitionMembership(rs[1..]);
      assert rs == [rs[0]] + rs[1..];
    }
  }

  /** Both lists keep the order the results came in. */
  lemma {:induction false} PartitionKeepsOrder(rs: seq<string>)
    ensures IsSubsequence(TextResults(rs), rs)
    ensures IsSubsequence(ImageResults(rs), rs)
  {
    if rs != [] {
      PartitionKeepsOrder(rs[1..]);
      var t := TextResults(rs);
      var m := ImageResults(rs);
      if t != [] && IsSubsequence(t, rs[1..]) {
        assert IsSubsequence(t, rs);
      }
      if m != [] && IsSubsequence(m, rs[1..]) {
        assert IsSubsequence(m, rs);
      }
    }
  }

  /** Classifying a concatenation classifies each part. */
  lemma {:induction false} PartitionOfAppend(a: seq<string>, b: seq<string>)
    ensures TextResults(a + b) == TextResults(a) + TextResults(b)
    ensures ImageResults(a + b) == ImageResults(a) + ImageResults(b)
  {
    if a != [] {
      PartitionOfAppend(a[1..], b);
      assert (a + b)[1..] == a[1..] + b;
    } else {
      assert a + b == b;
    }
  }

  /** Results with no image suffix all stay text; results with one all go
      to images. */
  lemma {:induction false} PartitionOfUniform(rs: seq<string>)
    ensures (forall k :: 0 <= k < |rs| ==> !IsImageName(rs[k])) ==> TextResults(rs) == rs && ImageResults(rs) == []
    ensures (forall k :: 0 <= k < |rs| ==> IsImageName(rs[k])) ==> ImageResults(rs) == rs && TextResults(rs) == []
  {
    if rs != [] {
      PartitionOfUniform(rs[1..]);
      assert rs == [rs[0]] + rs[1..];
    }
  }

  /** Every path the scraper names is classified as an image. */
  lemma ScrapedPathsAreImages(i: nat)
    ensures IsImageName(ImagePath(i))
  {
  }

  /** When no cleaned text hit ends in an image suffix and every image hit
      does, the split gives back exactly the cleaned text hits and the image
      hits. */
  lemma SeparatedResults(textHits: seq<string>, imageHits: seq<string>)
    requires forall k :: 0 <= k < |textHits| ==> !IsImageName(RemoveCitations(textHits[k]))
    requires forall k :: 0 <= k < |imageHits| ==> IsImageName(imageHits[k])
    ensures TextResults(CleanHits(textHits) + imageHits) == CleanHits(textHits)
    ensures ImageResults(CleanHits(textHits) + imageHits) == imageHits
  {
    var cleaned := CleanHits(textHits);
    PartitionOfAppend(cleaned, imageHits);
    PartitionOfUniform(cleaned);
    PartitionOfUniform(imageHits);
    assert cleaned + [] == cleaned;
    assert [] + imageHits == imageHits;
  }

  /** The split goes by suffix alone: a passage whose text ends in ".png" is
      shown as an image, and no text is shown. */
  lemma TextHitEndingInSuffixIsShownAsImage()
    ensures var rs := CleanHits(["a.png"]);
      ImageResults(rs) == ["a.png"] && TextResults(rs) == []
  {
    var hit := "a.png";
    NoBracketUnchanged(hit);
    var rs := CleanHits([hit]);
    assert rs == [hit];
    assert hit[|hit| - 4..] == ".png";
    assert IsImageName(rs[0]);
    assert rs[1..] == [];
  }

  /** When no text result holds a newline and there is at least one, the
      text output splits back, line by line, into the text results. */
  lemma TextOutputSplitsBack(rs: seq<string>)
    requires forall k :: 0 <= k < |rs| ==> '\n' !in rs[k]
    requires TextResults(rs) != []
    ensures Split(Join("\n", TextResults(rs)), '\n') == TextResults(rs)
  {
    var t := TextResults(rs);
    PartitionMembership(rs);
    forall k | 0 <= k < |t| ensures '\n' !in t[k] {
      assert t[k] in t;
    }
    JoinThenSplit(t, '\n');
  }

  /** `search_engine`: the text results joined with newlines, and the image
      results copied into a fresh list. */
  method SearchEngine(textHits: seq<string>, imageHits: seq<string>) returns (textOutput: string, imageOutput: seq<string>)
    ensures textOutput == Join("\n", TextResults(CleanHits(textHits) + imageHits))
    ensures imageOutput == ImageResults(CleanHits(textHits) + imageHits)
  {
    var results := Search(textHits, imageHits);
    var textResults := TextResults(results);
    var imageResults := ImageResults(results);
    textOutput := Join("\n", textResults);
    imageOutput := [];
    var i := 0;
    while i < |imageResults|
      invariant 0 <= i <= |imageResults|
      invariant imageOutput == imageResults[..i]
    {
      imageOutput := imageOutput + [imageResults[i]];
      i := i + 1;
    }
    assert imageResults[..i] == imageResults;
  }
}
