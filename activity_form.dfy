/** The activity form helpers of `ActivityController`: who owns an
    activity, which image an activity gets, and how the category and the
    tags typed into the form are normalised. */
module ActivityForms {
  import opened Common
  import opened Text

  /** The five stock images offered by the form (`DEFAULT_IMAGES`). */
  const DefaultImages: seq<string> := [
    "/images/anna-rosar-ZxFyVBHMK-c-unsplash.jpg",
    "/images/frederik-rosar-NDSZcCfnsbY-unsplash.jpg",
    "/images/anna-rosar-ew-olGvgCCs-unsplash.jpg",
    "/images/girl-taking-selfie-with-friends-golf-field.jpg",
    "/images/professional-golf-player.jpg"
  ]

  /** The image used when the form gives none (`DEFAULT_IMAGES.get(0)`). */
  function DefaultImage(): (r: string)
    ensures r == DefaultImages[0] && !IsBlank(r)
  {
    assert DefaultImages[0][0] == '/';
    DefaultImages[0]
  }

  const DefaultCategory: string := "Comunitate"

  // ---------------------------------------------------------------------
  // Ownership

  /** `isOwner`: the e-mails match ignoring case; a missing one never
      matches. */
  predicate IsOwner(creatorEmail: Option<string>, authenticatedEmail: Option<string>) {
    creatorEmail.Some? && authenticatedEmail.Some? && EqualsIgnoreCase(creatorEmail.value, authenticatedEmail.value)
  }

  /** Ownership does not depend on which side is which, nor on the case in
      which either address is written. */
  lemma IsOwnerSymmetricAndCaseBlind(creator: string, user: string)
    ensures IsOwner(Some(creator), Some(user)) <==> IsOwner(Some(user), Some(creator))
    ensures IsOwner(Some(creator), Some(user)) <==> IsOwner(Some(ToUpper(creator)), Some(ToLower(user)))
    ensures IsOwner(Some(creator), Some(creator))
    ensures !IsOwner(None, Some(user)) && !IsOwner(Some(creator), None)
  {
    assert forall i :: 0 <= i < |creator| ==> LowerChar(UpperChar(creator[i])) == LowerChar(creator[i]);
    assert forall i :: 0 <= i < |user| ==> LowerChar(LowerChar(user[i])) == LowerChar(user[i]);
    assert ToLower(ToUpper(creator)) == ToLower(creator);
    assert ToLower(ToLower(user)) == ToLower(user);
  }

  // ---------------------------------------------------------------------
  // Images

  /** The first of the candidates that is present and not blank. */
  predicate Usable(url: Option<string>) {
    !IsNullOrBlank(url)
  }

  /** `resolveImageUrl`: the uploaded or typed URL, else the chosen stock
      image, else the first stock image. */
  function ResolveImageUrl(imageUrl: Option<string>, imageChoice: Option<string>): (r: string)
    ensures !IsBlank(r)
    ensures Usable(imageUrl) ==> r == imageUrl.value
    ensures !Usable(imageUrl) && Usable(imageChoice) ==> r == imageChoice.value
    ensures !Usable(imageUrl) && !Usable(imageChoice) ==> r == DefaultImage()
  {
    if Usable(imageUrl) then imageUrl.value
    else if Usable(imageChoice) then imageChoice.value
    else DefaultImage()
  }

  /** `resolveImageUrlForEdit`: as `resolveImageUrl`, but the activity's
      current image is tried before the first stock image. */
  function ResolveImageUrlForEdit(imageUrl: Option<string>, imageChoice: Option<string>,
                                  existingImageUrl: Option<string>): (r: string)
    ensures !IsBlank(r)
    ensures Usable(imageUrl) || Usable(imageChoice) ==> r == ResolveImageUrl(imageUrl, imageChoice)
    ensures !Usable(imageUrl) && !Usable(imageChoice) && Usable(existingImageUrl) ==> r == existingImageUrl.value
    ensures !Usable(existingImageUrl) ==> r == ResolveImageUrl(imageUrl, imageChoice)
  {
    if Usable(imageUrl) then imageUrl.value
    else if Usable(imageChoice) then imageChoice.value
    else if Usable(existingImageUrl) then existingImageUrl.value
    else DefaultImage()
  }

  /** How `editActivityForm` pre-fills the image fields from the current
      image: a stock image becomes the choice, any other image the URL, and
      a missing or blank one leaves both empty. */
  function EditFormImage(existingImage: Option<string>): (r: (Option<string>, Option<string>))
    ensures !Usable(existingImage) ==> r == (None, None)
    ensures Usable(existingImage) && existingImage.value in DefaultImages ==> r == (None, existingImage)
    ensures Usable(existingImage) && existingImage.value !in DefaultImages ==> r == (existingImage, None)
  {
    if Usable(existingImage) then
      if existingImage.value in DefaultImages then (None, existingImage) else (existingImage, None)
    else (None, None)
  }

  /** Saving the edit form without touching its image fields keeps the
      activity's image, and gives a blank one the first stock image. */
  lemma EditFormKeepsImage(existingImage: Option<string>)
    ensures var (url, choice) := EditFormImage(existingImage);
            ResolveImageUrlForEdit(url, choice, existingImage) ==
              (if Usable(existingImage) then existingImage.value else DefaultImage())
  {
  }

  // ---------------------------------------------------------------------
  // Category

  /** `normalizeCategory`: the trimmed category, "Comunitate" when it is
      missing or blank. */
  function NormalizeCategory(category: Option<string>): (r: string)
    ensures IsNullOrBlank(category) ==> r == DefaultCategory
    ensures !IsNullOrBlank(category) ==> r == Trim(category.value)
    ensures r != [] && IsTrimmed(r)
  {
    if IsNullOrBlank(category) then
      assert DefaultCategory[0] == 'C' && DefaultCategory[|DefaultCategory| - 1] == 'e';
      DefaultCategory
    else
      TrimEmptyIffBlank(category.value);
      Trim(category.value)
  }

  /** A stored category is stored again unchanged. */
  lemma NormalizeCategoryIdempotent(category: Option<string>)
    ensures NormalizeCategory(Some(NormalizeCategory(category))) == NormalizeCategory(category)
  {
    var r := NormalizeCategory(category);
    TrimOfTrimmed(r);
    TrimEmptyIffBlank(r);
  }

  // ---------------------------------------------------------------------
  // Tags

  const MaxTags: nat := 3
  const TagSeparator: string := ", "

  /** The non-empty trimmed parts, in order. */
  function TagsOf(parts: seq<string>): (r: seq<string>)
    ensures |r| <= |parts|
  {
    if parts == [] then []
    else
      var rest := TagsOf(parts[..|parts| - 1]);
      var last := Trim(parts[|parts| - 1]);
      if last == [] then rest else rest + [last]
  }

  /** Every tag is non-empty and trimmed. */
  lemma {:induction false} TagsAreTrimmed(parts: seq<string>)
    ensures forall i :: 0 <= i < |TagsOf(parts)| ==> TagsOf(parts)[i] != [] && IsTrimmed(TagsOf(parts)[i])
    decreases |parts|
  {
    if parts != [] {
      TagsAreTrimmed(parts[..|parts| - 1]);
    }
  }

  lemma {:induction false} TagsOfAppend(xs: seq<string>, ys: seq<string>)
    ensures TagsOf(xs + ys) == TagsOf(xs) + TagsOf(ys)
    decreases |ys|
  {
    if ys == [] {
      assert xs + ys == xs;
    } else {
      var front := ys[..|ys| - 1];
      assert (xs + ys)[..|xs + ys| - 1] == xs + front;
      assert (xs + ys)[|xs + ys| - 1] == ys[|ys| - 1];
      TagsOfAppend(xs, front);
    }
  }

  /** One more part adds its trimmed form, unless that is empty. */
  lemma TagsOfSnoc(parts: seq<string>, i: nat)
    requires i < |parts|
    ensures TagsOf(parts[..i + 1]) ==
            TagsOf(parts[..i]) + (if Trim(parts[i]) == [] then [] else [Trim(parts[i])])
  {
    assert parts[..i + 1][..i] == parts[..i];
  }

  /** The tags as they follow a comma in the stored value. */
  function Spaced(kept: seq<string>): (r: seq<string>)
    ensures |r| == |kept|
    ensures forall i :: 0 <= i < |kept| ==> r[i] == " " + kept[i]
  {
    seq(|kept|, i requires 0 <= i < |kept| => " " + kept[i])
  }

  lemma SpacedCons(kept: seq<string>)
    requires kept != []
    ensures Spaced(kept) == [" " + kept[0]] + Spaced(kept[1..])
  {
  }


  /** Tags as they are stored: each non-empty, trimmed and free of commas. */
  predicate WellFormedTags(ks: seq<string>)
  {
    forall i :: 0 <= i < |ks| ==> ks[i] != [] && IsTrimmed(ks[i]) && ',' !in ks[i]
  }

  lemma WellFormedSlice(ks: seq<string>, lo: nat, hi: nat)
    requires WellFormedTags(ks) && lo <= hi <= |ks|
    ensures WellFormedTags(ks[lo..hi])
  {
    forall i | 0 <= i < hi - lo
      ensures ks[lo..hi][i] == ks[lo + i]
    {
    }
  }

  /** The tags `normalizeTags` keeps: the first three non-empty trimmed
      comma-separated parts of the input. */
  function KeptTags(tags: Option<string>): (r: seq<string>)
    ensures |r| <= MaxTags
    ensures WellFormedTags(r)
    ensures IsNullOrBlank(tags) ==> r == []
  {
    if IsNullOrBlank(tags) then []
    else
      var parts := Split(tags.value, ',');
      var kept := TagsOf(parts);
      TagsHaveNoComma(parts);
      TagsAreTrimmed(parts);
      Take(kept, MaxTags)
  }

  /** Trimming never brings in a character. */
  lemma TrimKeepsOut(s: string, c: char)
    requires c !in s
    ensures c !in Trim(s)
  {
  }

  lemma {:induction false} TagsHaveNoComma(parts: seq<string>)
    requires forall i :: 0 <= i < |parts| ==> ',' !in parts[i]
    ensures forall i :: 0 <= i < |TagsOf(parts)| ==> ',' !in TagsOf(parts)[i]
    decreases |parts|
  {
    if parts != [] {
      TagsHaveNoComma(parts[..|parts| - 1]);
      TrimKeepsOut(parts[|parts| - 1], ',');
    }
  }

  /** The value `normalizeTags` stores: the kept tags joined by ", ";
      empty for a missing or blank input. */
  function NormalizedTags(tags: Option<string>): (r: string)
    ensures IsNullOrBlank(tags) ==> r == []
  {
    Join(KeptTags(tags), TagSeparator)
  }

  lemma {:induction false} JoinAppend(xs: seq<string>, x: string, sep: string)
    requires xs != []
    ensures Join(xs + [x], sep) == Join(xs, sep) + sep + x
    decreases |xs|
  {
    if |xs| == 1 {
      assert (xs + [x])[1..] == [x];
    } else {
      assert (xs + [x])[1..] == xs[1..] + [x];
      JoinAppend(xs[1..], x, sep);
    }
  }

  /** Once three tags are kept, the parts after them do not matter. */
  lemma TakeKept(parts: seq<string>, i: nat)
    requires i <= |parts|
    requires |TagsOf(parts[..i])| == MaxTags || i == |parts|
    requires |TagsOf(parts[..i])| <= MaxTags
    ensures Take(TagsOf(parts), MaxTags) == TagsOf(parts[..i])
  {
    TagsOfSplit(parts, i);
    if i == |parts| {
      assert parts[i..] == [];
    }
    TakeOfAppend(TagsOf(parts[..i]), TagsOf(parts[i..]), MaxTags);
  }

  lemma TagsOfSplit(parts: seq<string>, i: nat)
    requires i <= |parts|
    ensures TagsOf(parts) == TagsOf(parts[..i]) + TagsOf(parts[i..])
  {
    assert parts == parts[..i] + parts[i..];
    TagsOfAppend(parts[..i], parts[i..]);
  }

  /** The joined tags grow by the separator and the new tag, or by the tag
      alone when it is the first. */
  lemma JoinSnoc(kept: seq<string>, tag: string, sep: string)
    ensures Join(kept + [tag], sep) == (if kept == [] then tag else Join(kept, sep) + sep + tag)
  {
    if kept == [] {
      assert kept + [tag] == [tag];
    } else {
      JoinAppend(kept, tag, sep);
    }
  }

  /** `normalizeTags`: the comma-separated parts are trimmed, empty ones are
      skipped, and the first three are joined by ", ". */
  method NormalizeTags(tags: Option<string>) returns (r: string)
    ensures r == NormalizedTags(tags)
  {
    if IsNullOrBlank(tags) {
      return [];
    }
    var parts := Split(tags.value, ',');
    r := JoinFirstTags(parts);
  }

  /** The loop of `normalizeTags`: trims each part, skips the empty ones,
      appends the others with ", " between them and stops at the third. */
  method JoinFirstTags(parts: seq<string>) returns (builder: string)
    ensures builder == Join(Take(TagsOf(parts), MaxTags), TagSeparator)
  {
    builder := [];
    var count := 0;
    var i := 0;
    ghost var kept: seq<string> := [];
    while i < |parts|
      invariant 0 <= i <= |parts|
      invariant kept == TagsOf(parts[..i])
      invariant count == |kept| < MaxTags
      invariant builder == Join(kept, TagSeparator)
    {
      var trimmed := Trim(parts[i]);
      TagsOfSnoc(parts, i);
      i := i + 1;
      if trimmed != [] {
        JoinSnoc(kept, trimmed, TagSeparator);
        if count > 0 {
          builder := builder + TagSeparator;
        }
        builder := builder + trimmed;
        kept := kept + [trimmed];
        count := count + 1;
        if count == MaxTags {
          assert kept == TagsOf(parts[..i]) && |kept| == MaxTags;
          break;
        }
      }
    }
    TakeKept(parts, i);
  }

  /** The parts of `pre` followed by tags joined by ", ": the first part
      takes `pre`, the others keep the space after each comma. */
  lemma {:induction false} SplitJoined(pre: string, kept: seq<string>)
    requires kept != []
    requires ',' !in pre
    requires WellFormedTags(kept)
    ensures Split(pre + Join(kept, TagSeparator), ',') == [pre + kept[0]] + Spaced(kept[1..])
    decreases |kept|
  {
    var s := pre + Join(kept, TagSeparator);
    if |kept| == 1 {
      assert s == pre + kept[0];
      NotInConcat(',', pre, kept[0]);
    } else {
      var rest := Join(kept[1..], TagSeparator);
      var first := pre + kept[0];
      assert s == first + "," + (" " + rest) by {
        assert Join(kept, TagSeparator) == kept[0] + TagSeparator + rest;
      }
      NotInConcat(',', pre, kept[0]);
      assert s[|first|] == ',';
      assert s[..|first|] == first;
      SplitAt(s, ',', |first|);
      assert s[|first| + 1..] == " " + rest;
      WellFormedSlice(kept, 1, |kept|);
      SplitJoined(" ", kept[1..]);
      SpacedCons(kept[1..]);
    }
  }

  /** A tag with a space in front trims back to itself. */
  lemma SpacedTag(k: string)
    requires k != [] && IsTrimmed(k)
    ensures Trim(" " + k) == k
  {
    assert " " + k == " " + k + [];
    TrimBothSides(" ", k, []);
  }

  lemma {:induction false} TagsOfSpaced(kept: seq<string>)
    requires WellFormedTags(kept)
    ensures TagsOf(Spaced(kept)) == kept
    decreases |kept|
  {
    if kept != [] {
      var spaced := Spaced(kept);
      var front := kept[..|kept| - 1];
      assert spaced[..|spaced| - 1] == Spaced(front);
      WellFormedSlice(kept, 0, |kept| - 1);
      TagsOfSpaced(front);
      SpacedTag(kept[|kept| - 1]);
      LastSplit(kept);
    }
  }

  /** Splitting stored tags at commas and trimming the parts gives the
      tags back. */
  lemma TagsOfJoined(kept: seq<string>)
    requires kept != [] && WellFormedTags(kept)
    ensures TagsOf(Split(Join(kept, TagSeparator), ',')) == kept
  {
    var tail := kept[1..];
    WellFormedSlice(kept, 1, |kept|);
    TagsOfSpaced(tail);
    assert [] + Join(kept, TagSeparator) == Join(kept, TagSeparator);
    SplitJoined([], kept);
    assert [] + kept[0] == kept[0];
    TagsOfAppend([kept[0]], Spaced(tail));
    assert TagsOf([kept[0]]) == [kept[0]] by {
      assert [kept[0]][..0] == [];
      TrimOfTrimmed(kept[0]);
    }
    FirstSplit(kept);
  }

  /** Stored tags start with the first tag's first character, which is not
      a space. */
  lemma JoinedNotBlank(kept: seq<string>)
    requires kept != [] && WellFormedTags(kept)
    ensures !IsBlank(Join(kept, TagSeparator))
  {
    var stored := Join(kept, TagSeparator);
    assert kept[0] != [] && IsTrimmed(kept[0]);
    assert kept[0][0] == stored[0] by {
      if |kept| > 1 {
        assert stored == kept[0] + (TagSeparator + Join(kept[1..], TagSeparator));
      }
    }
  }

  /** Normalising stored tags changes nothing. */
  lemma NormalizeTagsIdempotent(tags: Option<string>)
    ensures NormalizedTags(Some(NormalizedTags(tags))) == NormalizedTags(tags)
  {
    var kept := KeptTags(tags);
    var stored := Join(kept, TagSeparator);
    if kept == [] {
      assert stored == [];
    } else {
      JoinedNotBlank(kept);
      TagsOfJoined(kept);
      assert Take(kept, MaxTags) == kept;
    }
  }
}
