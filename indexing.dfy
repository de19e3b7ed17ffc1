/**
 * `index_data` (test.py): the two id-keyed collections of the search
 * server, `wiki_text` and `wiki_images`, filled by two loops. The server
 * keeps its collections between runs and a write under an existing id
 * replaces that record, so each collection is a map that the loops update
 * starting from whatever it held before.
 */
module Indexing {
  import opened Wrappers
  import opened PyStr
  import opened Cleaning
  import opened Images

  /** The records `for i, item in enumerate(items)` writes over its first `n`
      rounds when round i stores `rule(item)` under id i, or nothing when the
      rule gives nothing: exactly the ids of the items the rule keeps. */
  function EnumeratedRecords(items: seq<string>, n: nat, rule: string -> Option<string>): map<nat, string>
    requires n <= |items|
  {
    if n == 0 then map[]
    else
      var earlier := EnumeratedRecords(items, n - 1, rule);
      var record := rule(items[n - 1]);
      if record.Some? then earlier[n - 1 := record.value] else earlier
  }

  /** An id is written exactly when it is a position among the first `n`
      whose item the rule keeps, and it holds what the rule made of that
      item. */
  lemma {:induction false} EnumeratedRecordsAre(items: seq<string>, n: nat, rule: string -> Option<string>)
    requires n <= |items|
    ensures forall i: nat :: i in EnumeratedRecords(items, n, rule) <==> i < n && rule(items[i]).Some?
    ensures forall i :: i in EnumeratedRecords(items, n, rule) ==>
      EnumeratedRecords(items, n, rule)[i] == rule(items[i]).value
  {
    if n > 0 {
      EnumeratedRecordsAre(items, n - 1, rule);
    }
  }

  /** What the text loop stores for one piece of the split: nothing when its
      strip is empty, otherwise the stripped piece with its citation markers
      removed. */
  function PieceRecord(item: string): (r: Option<string>)
    ensures r.None? <==> forall k :: 0 <= k < |item| ==> IsSpace(item[k])
    ensures r.Some? ==> |r.value| <= |item|
  {
    StripEmptyIff(item);
    var stripped := Strip(item);
    if stripped != [] then Some(RemoveCitations(stripped)) else None
  }

  /** The `wiki_text` records written for `text`: the pieces of
      `text.split("\n")` that `PieceRecord` keeps, under their positions. */
  function Passages(text: string): map<nat, string>
  {
    var pieces := Split(text, '\n');
    EnumeratedRecords(pieces, |pieces|, PieceRecord)
  }

  /** The `wiki_images` records written for `paths`: every path is kept. */
  function ImageRecords(paths: seq<string>): map<nat, string>
  {
    EnumeratedRecords(paths, |paths|, path => Some(path))
  }

  /** Image ids run from 0 to n-1 with no gap, and record i holds path i. */
  lemma ImageRecordsContiguous(paths: seq<string>)
    ensures forall i: nat :: i in ImageRecords(paths) <==> i < |paths|
    ensures forall i :: 0 <= i < |paths| ==> ImageRecords(paths)[i] == paths[i]
  {
    EnumeratedRecordsAre(paths, |paths|, path => Some(path));
  }

  /** Every passage id is the position of a piece of the split whose strip
      is non-empty; the record is that strip with markers removed. */
  lemma PassagesArePieces(text: string)
    ensures var pieces := Split(text, '\n');
      forall i: nat :: i in Passages(text) <==> i < |pieces| && Strip(pieces[i]) != []
    ensures var pieces := Split(text, '\n');
      forall i :: i in Passages(text) ==> Passages(text)[i] == RemoveCitations(Strip(pieces[i]))
  {
    var pieces := Split(text, '\n');
    EnumeratedRecordsAre(pieces, |pieces|, PieceRecord);
  }

  /** Text scraped from a page holds no newline, so the split yields one piece
      and at most one passage is written, under id 0. */
  lemma ScrapedTextIsOnePassage(paragraphs: seq<string>)
    ensures var text := ScrapeText(paragraphs);
      Passages(text) == if text == [] then map[] else map[0 := RemoveCitations(text)]
  {
    var text := ScrapeText(paragraphs);
    SplitWithoutSeparator(text, '\n');
    StripUnchangedIff(text);
    assert PieceRecord(text) == if text == [] then None else Some(RemoveCitations(text));
    assert EnumeratedRecords([text], 0, PieceRecord) == map[];
  }

  /** No stored passage contains a newline, whatever text is indexed. */
  lemma PassagesHaveNoNewline(text: string)
    ensures forall i :: i in Passages(text) ==> '\n' !in Passages(text)[i]
  {
    var pieces := Split(text, '\n');
    EnumeratedRecordsAre(pieces, |pieces|, PieceRecord);
    forall i | i in Passages(text) ensures '\n' !in Passages(text)[i] {
      StripKeepsOrder(pieces[i]);
      SubsequenceExcludes(Strip(pieces[i]), pieces[i], '\n');
      RemoveCitationsExcludes(Strip(pieces[i]), '\n');
    }
  }

  /** One more round of an enumerating loop over a collection that already
      holds the earlier rounds' records overlaid on `before`. */
  lemma OverlayStep(before: map<nat, string>, items: seq<string>, n: nat, rule: string -> Option<string>)
    requires n < |items|
    ensures var current := before + EnumeratedRecords(items, n, rule);
      var record := rule(items[n]);
      before + EnumeratedRecords(items, n + 1, rule)
        == if record.Some? then current[n := record.value] else current
  {
  }

  class SearchIndex {
    /** The `wiki_text` collection: passage id to content. */
    var wikiText: map<nat, string>
    /** The `wiki_images` collection: image id to path. */
    var wikiImages: map<nat, string>

    /** Collections that hold nothing yet. */
    constructor ()
      ensures wikiText == map[] && wikiImages == map[]
    {
      wikiText := map[];
      wikiImages := map[];
    }

    /** Scrape the page, then write every passage and every image path.
        When a tag has no `src` the scrape raises before anything is
        written. The whole-page write to the `text` collection, whose id
        the server chooses, is not modelled. */
    method IndexData(paragraphs: seq<string>, tags: seq<ImgTag>) returns (err: Option<ScrapeError>)
      modifies this
      ensures err.None? <==> forall k :: 0 <= k < |tags| ==> tags[k].src.Some?
      ensures err.None? ==> wikiText == old(wikiText) + Passages(ScrapeText(paragraphs))
      ensures err.None? ==> wikiImages == old(wikiImages) + ImageRecords(ImagePaths(|tags|))
      ensures err.Some? ==> wikiText == old(wikiText) && wikiImages == old(wikiImages)
    {
      var textData := ScrapeText(paragraphs);
      var scraped := ScrapeImages(tags);
      if scraped.Failure? {
        return Some(scraped.error);
      }
      var imageData := scraped.value;
      assert imageData == ImagePaths(|tags|);
      IndexText(textData);
      IndexImages(imageData);
      return None;
    }

    /** The text loop over the pieces of `text.split("\n")`: a piece whose
        strip is non-empty is written, cleaned, under its position. */
    method IndexText(text: string)
      modifies this
      ensures wikiText == old(wikiText) + Passages(text)
      ensures wikiImages == old(wikiImages)
    {
      var pieces := Split(text, '\n');
      WritePieces(pieces, PieceRecord);
    }

    /** The body of the text loop with the per-piece decision as a
        parameter: round i writes `rule(pieces[i])`, when present, under
        id i into `wiki_text`. */
    method WritePieces(pieces: seq<string>, rule: string -> Option<string>)
      modifies this
      ensures wikiText == old(wikiText) + EnumeratedRecords(pieces, |pieces|, rule)
      ensures wikiImages == old(wikiImages)
    {
      var i := 0;
      while i < |pieces|
        invariant 0 <= i <= |pieces|
        invariant wikiText == old(wikiText) + EnumeratedRecords(pieces, i, rule)
        invariant wikiImages == old(wikiImages)
      {
        OverlayStep(old(wikiText), pieces, i, rule);
        var record := rule(pieces[i]);
        if record.Some? {
          wikiText := wikiText[i := record.value];
        }
        i := i + 1;
      }
    }

    /** The image loop: path i is written under id i. */
    method IndexImages(paths: seq<string>)
      modifies this
      ensures wikiImages == old(wikiImages) + ImageRecords(paths)
      ensures wikiText == old(wikiText)
    {
      var i := 0;
      while i < |paths|
        invariant 0 <= i <= |paths|
        invariant wikiImages == old(wikiImages) + EnumeratedRecords(paths, i, path => Some(path))
        invariant wikiText == old(wikiText)
      {
        OverlayStep(old(wikiImages), paths, i, path => Some(path));
        wikiImages := wikiImages[i := paths[i]];
        i := i + 1;
      }
    }
  }
}
