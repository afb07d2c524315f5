/** The recipe card of the result grid, and the tag chips it shows. */
module RecipeCard {
  import opened Options
  import opened Seqs
  import opened Text
  import opened Catalogue

  const MaxTags: nat := 2
  const TagSeparator: string := ","

  /** `strTags.split(',').slice(0, 2).map(tag => tag.trim())`, guarded by `strTags &&`. */
  function Tags(strTags: Option<string>): (tags: seq<string>)
    ensures |tags| <= MaxTags
    ensures !Truthy(strTags) ==> tags == []
    ensures Truthy(strTags) ==> 1 <= |tags| && |tags| == |Take(Split(strTags.value, TagSeparator), MaxTags)|
    ensures Truthy(strTags) ==> forall k :: 0 <= k < |tags| ==>
      tags[k] == Trim(Split(strTags.value, TagSeparator)[k])
  {
    if !Truthy(strTags) then []
    else
      var pieces := Take(Split(strTags.value, TagSeparator), MaxTags);
      seq(|pieces|, k requires 0 <= k < |pieces| => Trim(pieces[k]))
  }

  /** Every chip is already trimmed. */
  lemma TagsAreTrimmed(strTags: Option<string>)
    ensures forall k :: 0 <= k < |Tags(strTags)| ==> Trim(Tags(strTags)[k]) == Tags(strTags)[k]
  {
    forall k | 0 <= k < |Tags(strTags)| ensures Trim(Tags(strTags)[k]) == Tags(strTags)[k] {
      TrimIdempotent(Split(strTags.value, TagSeparator)[k]);
    }
  }

  /** A tag string without a comma gives exactly one chip, the trimmed string. */
  lemma TagsWithoutComma(strTags: string)
    requires |strTags| > 0 && !Contains(strTags, TagSeparator)
    ensures Tags(Some(strTags)) == [Trim(strTags)]
  {
    SplitWithoutSeparator(strTags, TagSeparator);
  }

  /** The chips come from the comma-separated pieces, which rejoin to the tag string. */
  lemma TagPiecesRejoin(strTags: string)
    ensures Join(Split(strTags, TagSeparator), TagSeparator) == strTags
  {
    JoinSplit(strTags, TagSeparator);
  }

  /** Empty pieces are kept: a tag string `a,,b` (with comma-free `a` and `b`) shows the
      chips `a` trimmed and the empty string. */
  lemma TagsKeepEmptyPieces(a: string, b: string)
    requires !Contains(a, TagSeparator) && !Contains(b, TagSeparator)
    ensures Tags(Some(a + ",," + b)) == [Trim(a), ""]
  {
    SplitDoubleComma(a, b);
    var tags := Tags(Some(a + ",," + b));
    assert |tags| == 2;
    assert tags[1] == Trim("") == "";
  }

  /** The split of `a,,b` at commas has an empty middle piece. */
  lemma SplitDoubleComma(a: string, b: string)
    requires !Contains(a, TagSeparator) && !Contains(b, TagSeparator)
    ensures Split(a + ",," + b, TagSeparator) == [a, "", b]
  {
    var pieces := [a, "", b];
    assert Join(pieces, TagSeparator) == a + ",," + b by {
      assert pieces[1..] == ["", b];
      assert Join(["", b], TagSeparator) == "," + b;
    }
    ContainsChar("", ',');
    SplitJoin(pieces, TagSeparator);
  }
}
