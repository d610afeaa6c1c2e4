/** Values shared by every part of the model: optional values (Java's
    nullable references) and results (a value or the failure a service
    raises). */
module Common {

  /** A nullable reference: `None` stands for Java's `null`. */
  datatype Option<+T> = None | Some(value: T) {
    function GetOr(default: T): T {
      match this
      case Some(v) => v
      case None => default
    }
  }

  /** The outcome of an operation that may raise an exception. */
  datatype Result<+T, +E> = Ok(value: T) | Err(error: E)

  /** A point in time (`LocalDateTime`), as a count of clock ticks. */
  type DateTime = int

  /** The HTTP statuses carried by the services' `ResponseStatusException`s. */
  datatype Status = BadRequest | Unauthorized | Forbidden | NotFound

  /** The first `n` elements, or all of them when there are fewer
      (`Stream.limit`). */
  function Take<T>(s: seq<T>, n: nat): seq<T> {
    if |s| <= n then s else s[..n]
  }

  /** Taking `n` from a sequence that starts with `n` elements, or with
      fewer and nothing after them, gives that start. */
  lemma TakeOfAppend<T>(a: seq<T>, b: seq<T>, n: nat)
    requires |a| == n || (|a| <= n && b == [])
    ensures Take(a + b, n) == a
  {
    if b == [] {
      assert a + b == a;
    } else {
      assert (a + b)[..n] == a;
    }
  }

  /** A non-empty sequence is its front followed by its last element. */
  lemma LastSplit<T>(s: seq<T>)
    requires s != []
    ensures s == s[..|s| - 1] + [s[|s| - 1]]
  {
  }

  /** What is in neither part is not in their concatenation. */
  lemma NotInConcat<T>(x: T, a: seq<T>, b: seq<T>)
    requires x !in a && x !in b
    ensures x !in a + b
  {
  }

  /** A non-empty sequence is its first element followed by the rest. */
  lemma FirstSplit<T>(s: seq<T>)
    requires s != []
    ensures s == [s[0]] + s[1..]
  {
  }
}

/** The string operations the services rely on.

    Java distinguishes `trim` (drops code points up to U+0020) from
    `isBlank` (Unicode white space); both are modelled here with the single
    predicate `IsSpace`, which follows `trim`.  Case mapping covers ASCII
    letters only. */
module Text {
  import opened Common

  predicate IsSpace(c: char) {
    c <= ' '
  }

  /** `String.isBlank`: empty or made of white space only. */
  predicate IsBlank(s: string) {
    forall i :: 0 <= i < |s| ==> IsSpace(s[i])
  }

  /** A nullable string that is null or blank (`s == null || s.isBlank()`). */
  predicate IsNullOrBlank(s: Option<string>) {
    s.None? || IsBlank(s.value)
  }

  /** True when `s` has no white space at either end. */
  predicate IsTrimmed(s: string) {
    s == [] || (!IsSpace(s[0]) && !IsSpace(s[|s| - 1]))
  }

  function TrimStart(s: string): (r: string)
    ensures |r| <= |s| && r == s[|s| - |r|..]
    ensures r == [] || !IsSpace(r[0])
    ensures forall i :: 0 <= i < |s| - |r| ==> IsSpace(s[i])
  {
    if |s| > 0 && IsSpace(s[0]) then
      var r := TrimStart(s[1..]);
      assert s[1..][|s| - 1 - |r|..] == s[|s| - |r|..];
      assert forall i :: 1 <= i < |s| - |r| ==> s[i] == s[1..][i - 1];
      r
    else s
  }

  function TrimEnd(s: string): (r: string)
    ensures |r| <= |s| && r == s[..|r|]
    ensures r == [] || !IsSpace(r[|r| - 1])
    ensures forall i :: |r| <= i < |s| ==> IsSpace(s[i])
  {
    if |s| > 0 && IsSpace(s[|s| - 1]) then
      var r := TrimEnd(s[..|s| - 1]);
      assert s[..|s| - 1][..|r|] == s[..|r|];
      assert forall i :: |r| <= i < |s| - 1 ==> s[i] == s[..|s| - 1][i];
      r
    else s
  }

  /** `String.trim`. */
  function Trim(s: string): (r: string)
    ensures IsTrimmed(r)
    ensures |r| <= |s| - TrimOffset(s)
    ensures r == s[TrimOffset(s)..TrimOffset(s) + |r|]
  {
    var t := TrimStart(s);
    var r := TrimEnd(t);
    assert r == [] || !IsSpace(r[0]) by {
      if r != [] { assert r[0] == t[0]; }
    }
    r
  }

  /** The number of characters `trim` drops at the front. */
  function TrimOffset(s: string): nat {
    |s| - |TrimStart(s)|
  }

  /** Trimming yields the empty string exactly for blank input. */
  lemma TrimEmptyIffBlank(s: string)
    ensures Trim(s) == [] <==> IsBlank(s)
  {
    var t := TrimStart(s);
    if IsBlank(s) {
      BlankTrimStart(s);
    } else {
      var i :| 0 <= i < |s| && !IsSpace(s[i]);
      assert t != [];
      KeepsFirst(t);
    }
  }

  lemma {:induction false} BlankTrimStart(s: string)
    requires IsBlank(s)
    ensures TrimStart(s) == []
  {
    if s != [] {
      BlankTrimStart(s[1..]);
    }
  }

  lemma {:induction false} KeepsFirst(t: string)
    requires t != [] && !IsSpace(t[0])
    ensures TrimEnd(t) != []
  {
    if |t| > 1 && IsSpace(t[|t| - 1]) {
      KeepsFirst(t[..|t| - 1]);
    }
  }

  /** A string with no white space at either end is its own trim. */
  lemma TrimOfTrimmed(s: string)
    requires IsTrimmed(s)
    ensures Trim(s) == s
  {
    assert TrimStart(s) == s;
    assert TrimEnd(s) == s;
  }

  /** Trimming twice is trimming once. */
  lemma TrimIdempotent(s: string)
    ensures Trim(Trim(s)) == Trim(s)
  {
    TrimOfTrimmed(Trim(s));
  }

  /** White space in front of a trimmed string is dropped by `trim`. */
  lemma {:induction false} TrimLeadingSpace(pad: string, s: string)
    requires IsBlank(pad) && IsTrimmed(s)
    ensures Trim(pad + s) == s
  {
    if pad == [] {
      assert pad + s == s;
      TrimOfTrimmed(s);
    } else {
      assert (pad + s)[1..] == pad[1..] + s;
      TrimLeadingSpace(pad[1..], s);
      assert TrimStart(pad + s) == TrimStart(pad[1..] + s);
    }
  }

  /** White space in front of `x` does not change where trimming starts. */
  lemma {:induction false} TrimStartSkipsPad(pad: string, x: string)
    requires IsBlank(pad)
    ensures TrimStart(pad + x) == TrimStart(x)
  {
    if pad != [] {
      assert (pad + x)[1..] == pad[1..] + x;
      TrimStartSkipsPad(pad[1..], x);
    } else {
      assert pad + x == x;
    }
  }

  /** White space after `x` does not change where trimming ends. */
  lemma {:induction false} TrimEndSkipsPad(x: string, pad: string)
    requires IsBlank(pad)
    ensures TrimEnd(x + pad) == TrimEnd(x)
  {
    if pad != [] {
      var p := pad[..|pad| - 1];
      assert (x + pad)[..|x + pad| - 1] == x + p;
      TrimEndSkipsPad(x, p);
    } else {
      assert x + pad == x;
    }
  }

  /** White space on both sides of a trimmed string is dropped by `trim`. */
  lemma TrimBothSides(front: string, s: string, back: string)
    requires IsBlank(front) && IsBlank(back) && IsTrimmed(s)
    ensures Trim(front + s + back) == s
  {
    assert front + s + back == front + (s + back);
    TrimStartSkipsPad(front, s + back);
    if s == [] {
      assert s + back == back;
      BlankTrimStart(back);
    } else {
      assert TrimStart(s + back) == s + back;
      TrimEndSkipsPad(s, back);
      assert TrimEnd(s) == s;
    }
  }

  /** Adding white space on either side does not change the trim. */
  lemma TrimPadded(front: string, s: string, back: string)
    requires IsBlank(front) && IsBlank(back)
    ensures Trim(front + s + back) == Trim(s)
  {
    assert front + s + back == front + (s + back);
    if IsBlank(s) {
      TrimEmptyIffBlank(s);
      assert IsBlank(front + s + back);
      TrimEmptyIffBlank(front + s + back);
    } else {
      TrimStartSkipsPad(front, s + back);
      TrimStartAppend(s, back);
      var t := TrimStart(s);
      TrimEndSkipsPad(t, back);
    }
  }

  /** Once a non-blank string is trimmed at the front, whatever follows it
      is kept. */
  lemma {:induction false} TrimStartAppend(s: string, x: string)
    requires !IsBlank(s)
    ensures TrimStart(s + x) == TrimStart(s) + x
  {
    assert (s + x)[0] == s[0];
    if IsSpace(s[0]) {
      assert (s + x)[1..] == s[1..] + x;
      TrimStartAppend(s[1..], x);
    }
  }

  /** `toLowerCase` leaves no upper-case ASCII letter. */
  predicate IsLowerCase(s: string) {
    forall k :: 0 <= k < |s| ==> !('A' <= s[k] <= 'Z')
  }

  function LowerChar(c: char): char {
    if 'A' <= c <= 'Z' then (c as int + 32) as char else c
  }

  function UpperChar(c: char): char {
    if 'a' <= c <= 'z' then (c as int - 32) as char else c
  }

  /** `String.toLowerCase` on ASCII letters. */
  function ToLower(s: string): (r: string)
    ensures |r| == |s|
    ensures forall i :: 0 <= i < |s| ==> r[i] == LowerChar(s[i])
  {
    seq(|s|, i requires 0 <= i < |s| => LowerChar(s[i]))
  }

  lemma ToLowerIsLowerCase(s: string)
    ensures IsLowerCase(ToLower(s))
  {
  }

  lemma LowerCaseSlice(s: string, i: nat, j: nat)
    requires IsLowerCase(s) && i <= j <= |s|
    ensures IsLowerCase(s[i..j])
  {
  }

  lemma LowerOfLowerCase(s: string)
    requires IsLowerCase(s)
    ensures ToLower(s) == s
  {
  }

  /** `String.toUpperCase` on ASCII letters. */
  function ToUpper(s: string): (r: string)
    ensures |r| == |s|
    ensures forall i :: 0 <= i < |s| ==> r[i] == UpperChar(s[i])
  {
    seq(|s|, i requires 0 <= i < |s| => UpperChar(s[i]))
  }

  /** `String.equalsIgnoreCase` on ASCII letters. */
  predicate EqualsIgnoreCase(a: string, b: string) {
    ToLower(a) == ToLower(b)
  }

  predicate StartsWith(s: string, prefix: string) {
    |prefix| <= |s| && s[..|prefix|] == prefix
  }

  /** `String.contains`. */
  predicate Contains(s: string, part: string)
    decreases |s|
  {
    StartsWith(s, part) || (|s| > 0 && Contains(s[1..], part))
  }

  /** `part` occurs in `s` starting at position `i`. */
  predicate OccursAt(s: string, part: string, i: nat) {
    i + |part| <= |s| && s[i..i + |part|] == part
  }

  /** `part` occurs in `s` at some position. */
  ghost predicate Occurs(s: string, part: string) {
    exists i: nat :: OccursAt(s, part, i)
  }

  /** `Contains` finds exactly the occurrences. */
  lemma {:induction false} ContainsIffOccurs(s: string, part: string)
    ensures Contains(s, part) <==> Occurs(s, part)
    decreases |s|
  {
    if StartsWith(s, part) {
      assert OccursAt(s, part, 0);
    } else if Occurs(s, part) {
      var i: nat :| OccursAt(s, part, i);
      if i == 0 {
        assert false;
      }
      assert |s| > 0;
      assert OccursAt(s[1..], part, i - 1) by {
        assert s[1..][i - 1..i - 1 + |part|] == s[i..i + |part|];
      }
      ContainsIffOccurs(s[1..], part);
    } else if |s| > 0 {
      ContainsIffOccurs(s[1..], part);
      if Contains(s[1..], part) {
        var j: nat :| OccursAt(s[1..], part, j);
        assert s[j + 1..j + 1 + |part|] == s[1..][j..j + |part|];
        assert OccursAt(s, part, j + 1);
      }
    }
  }

  /** `value.trim()`, or null when that is empty; `null` maps to `null`
      (`normalizeNullable` of `UserService` and `OAuthAccountService`). */
  function NormalizeNullable(value: Option<string>): (r: Option<string>)
    ensures r.Some? <==> value.Some? && Trim(value.value) != []
    ensures r.Some? ==> r.value == Trim(value.value)
  {
    match value
    case None => None
    case Some(v) => if Trim(v) == [] then None else Some(Trim(v))
  }

  /** The normalised value is never empty and is already trimmed, so
      normalising it again changes nothing. */
  lemma NormalizeNullableIdempotent(value: Option<string>)
    ensures NormalizeNullable(value) != Some([])
    ensures NormalizeNullable(value).Some? ==> IsTrimmed(NormalizeNullable(value).value)
    ensures NormalizeNullable(NormalizeNullable(value)) == NormalizeNullable(value)
  {
    if value.Some? {
      TrimIdempotent(value.value);
    }
  }

  /** The parts of `s` between occurrences of `sep`, as `String.split` with a
      one-character separator, but keeping trailing empty parts (every caller
      in the model discards empty or blank parts anyway). */
  function Split(s: string, sep: char): (parts: seq<string>)
    ensures |parts| >= 1
    ensures forall i :: 0 <= i < |parts| ==> sep !in parts[i]
    decreases |s|
  {
    if sep !in s then [s]
    else
      var k := IndexOf(s, sep);
      [s[..k]] + Split(s[k + 1..], sep)
  }

  /** The position of the first `c` in `s`. */
  function IndexOf(s: string, c: char): (k: nat)
    requires c in s
    ensures k < |s| && s[k] == c && c !in s[..k]
  {
    if s[0] == c then 0 else 1 + IndexOf(s[1..], c)
  }

  lemma AppendAssoc(x: string, a: string, b: string)
    ensures x + a + b == x + (a + b)
  {
  }

  /** `IndexOf` finds the first occurrence. */
  lemma IndexOfFirst(s: string, c: char, k: nat)
    requires k < |s| && s[k] == c && c !in s[..k]
    ensures c in s && IndexOf(s, c) == k
  {
    var first := IndexOf(s, c);
    assert forall j :: 0 <= j < k ==> s[..k][j] == s[j];
    assert forall j :: 0 <= j < first ==> s[..first][j] == s[j];
  }

  /** Splitting at the first separator, found at `k`, peels off the part
      before it. */
  lemma SplitAt(s: string, c: char, k: nat)
    requires k < |s| && s[k] == c && c !in s[..k]
    ensures Split(s, c) == [s[..k]] + Split(s[k + 1..], c)
  {
    IndexOfFirst(s, c, k);
  }

  /** The parts joined with `sep` between consecutive parts. */
  function Join(parts: seq<string>, sep: string): string {
    if parts == [] then []
    else if |parts| == 1 then parts[0]
    else parts[0] + sep + Join(parts[1..], sep)
  }

  /** Joining parts that do not contain `c` with `c` between them, and
      splitting the result at `c`, gives the parts back. */
  lemma {:induction false} SplitOfJoin(parts: seq<string>, c: char)
    requires parts != []
    requires forall i :: 0 <= i < |parts| ==> c !in parts[i]
    ensures Split(Join(parts, [c]), c) == parts
    decreases |parts|
  {
    if |parts| > 1 {
      var s := Join(parts, [c]);
      var rest := Join(parts[1..], [c]);
      assert s == parts[0] + [c] + rest;
      assert s[..|parts[0]|] == parts[0];
      SplitAt(s, c, |parts[0]|);
      assert s[|parts[0]| + 1..] == rest;
      SplitOfJoin(parts[1..], c);
      FirstSplit(parts);
    }
  }
}
