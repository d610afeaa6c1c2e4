/** The four chat reactions (`ActivityMessageReactionType`): their names,
    their emoji and the lenient parser used by the chat API. */
module ReactionTypes {
  import opened Common
  import opened Text

  datatype ReactionType = Like | Love | Laugh | Wow

  /** The constants in declaration order. */
  const Declared: seq<ReactionType> := [Like, Love, Laugh, Wow]

  /** `name()`: the constant's identifier. */
  function Name(t: ReactionType): string {
    match t
    case Like => "LIKE"
    case Love => "LOVE"
    case Laugh => "LAUGH"
    case Wow => "WOW"
  }

  /** `getEmoji()`. */
  function Emoji(t: ReactionType): string {
    match t
    case Like => "\U{1F44D}"
    case Love => "\U{2764}\U{FE0F}"
    case Laugh => "\U{1F602}"
    case Wow => "\U{1F62E}"
  }

  /** `valueOf`: the constant whose name is exactly `name`; `None` stands for
      the `IllegalArgumentException` that `fromValue` catches. */
  function ValueOf(name: string): (r: Option<ReactionType>)
    ensures forall t :: r == Some(t) <==> Name(t) == name
  {
    if name == "LIKE" then Some(Like)
    else if name == "LOVE" then Some(Love)
    else if name == "LAUGH" then Some(Laugh)
    else if name == "WOW" then Some(Wow)
    else None
  }

  /** `fromValue`: null or blank gives null; otherwise the trimmed,
      upper-cased text is looked up by name, and an unknown name gives null. */
  function FromValue(value: Option<string>): (r: Option<ReactionType>)
    ensures IsNullOrBlank(value) ==> r.None?
    ensures r.Some? ==> Name(r.value) == ToUpper(Trim(value.value))
  {
    if IsNullOrBlank(value) then None
    else ValueOf(ToUpper(Trim(value.value)))
  }

  /** What `FromValue` accepts, in both directions: exactly the non-blank
      strings whose trimmed, upper-cased form is a constant's name. */
  lemma FromValueAccepts(value: Option<string>, t: ReactionType)
    ensures FromValue(value) == Some(t) <==>
              value.Some? && !IsBlank(value.value) && ToUpper(Trim(value.value)) == Name(t)
  {
  }

  /** Every constant parses back from its own name. */
  lemma {:induction false} FromValueOfName(t: ReactionType)
    ensures FromValue(Some(Name(t))) == Some(t)
  {
    var n := Name(t);
    NameIsCanonical(t);
    TrimOfTrimmed(n);
    assert FromValue(Some(n)) == ValueOf(ToUpper(Trim(n)));
  }

  /** A name is not blank, has no surrounding white space and is already
      upper case. */
  lemma NameIsCanonical(t: ReactionType)
    ensures !IsBlank(Name(t)) && IsTrimmed(Name(t)) && ToUpper(Name(t)) == Name(t)
  {
    var n := Name(t);
    assert !IsSpace(n[0]) && !IsSpace(n[|n| - 1]);
    assert forall i :: 0 <= i < |n| ==> 'A' <= n[i] <= 'Z';
    assert forall i :: 0 <= i < |n| ==> UpperChar(n[i]) == n[i];
  }

  /** Case and surrounding white space do not matter to the parser. */
  lemma FromValueIgnoresPaddingAndCase(pad: string, t: ReactionType)
    requires IsBlank(pad)
    ensures FromValue(Some(pad + ToLower(Name(t)) + pad)) == Some(t)
  {
    var lower := ToLower(Name(t));
    assert ToUpper(lower) == Name(t) by { UpperOfLowerName(t); }
    FromValueOfPadded(pad, lower);
  }

  lemma UpperOfLowerName(t: ReactionType)
    ensures IsTrimmed(ToLower(Name(t))) && ToLower(Name(t)) != []
    ensures ToUpper(ToLower(Name(t))) == Name(t)
  {
    var n := Name(t);
    forall i | 0 <= i < |n|
      ensures 'A' <= n[i] <= 'Z'
    {
    }
  }

  /** A padded non-blank value is looked up by its trimmed, upper-cased text. */
  lemma {:induction false} FromValueOfPadded(pad: string, x: string)
    requires IsBlank(pad) && IsTrimmed(x) && x != []
    ensures FromValue(Some(pad + x + pad)) == ValueOf(ToUpper(x))
  {
    TrimBothSides(pad, x, pad);
    assert !IsBlank(pad + x + pad) by {
      assert (pad + x + pad)[|pad|] == x[0];
    }
  }

  /** No two constants share a name or an emoji. */
  lemma NamesAndEmojiDistinct(a: ReactionType, b: ReactionType)
    requires a != b
    ensures Name(a) != Name(b) && Emoji(a) != Emoji(b)
  {
  }
}
