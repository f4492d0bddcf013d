/** The small string and collection helpers of helper.go. */
module Helpers {
  import opened StringOps
  import opened Optional

  /** The `error` result of a Go function: nil, or an error with a message. */
  datatype Outcome = Pass | Fail(message: string)

  const TooLongMessage: string := " value is too long"

  /** `GetProtocol`: the URL scheme prefix for a connection with or without TLS. */
  function GetProtocol(isTLS: bool): (protocol: string)
    ensures HasPrefix(protocol, "http") && protocol[|protocol| - 3..] == "://"
    ensures isTLS <==> protocol == "https://"
    ensures !isTLS <==> protocol == "http://"
  {
    if isTLS then "https://" else "http://"
  }

  /** `ValidateMaxInput`: an error exactly when the input is longer than `limit`
      bytes; `len` in Go counts the bytes of the UTF-8 encoding. */
  function ValidateMaxInput(input: string, limit: int): (err: Outcome)
    ensures err.Pass? <==> Utf8Len(input) <= limit
    ensures err.Fail? ==> err.message == TooLongMessage
  {
    if Utf8Len(input) > limit then Fail(TooLongMessage) else Pass
  }

  /** An ASCII input passes exactly when it has at most `limit` runes; any input
      longer than `limit` runes fails. */
  lemma ValidateMaxInputRunes(input: string, limit: int)
    ensures (forall i :: 0 <= i < |input| ==> input[i] as int < 0x80) ==>
      (ValidateMaxInput(input, limit).Pass? <==> |input| <= limit)
    ensures |input| > limit ==> ValidateMaxInput(input, limit).Fail?
  {
    Utf8LenBounds(input);
  }

  // ---------------------------------------------------------------------
  // StringInSlice

  /** The comparison StringInSlice makes: exact, or after lower-casing both sides. */
  predicate SameString(a: string, b: string, caseSensitive: bool) {
    if caseSensitive then a == b else ToLower(a) == ToLower(b)
  }

  /** `StringInSlice(str, list, caseSensitive...)`: whether some element of
      `list` equals `str`. The optional flag defaults to case-sensitive; only its
      first value is read. */
  method StringInSlice(str: string, list: seq<string>, caseSensitive: seq<bool>) returns (found: bool)
    ensures var exact := |caseSensitive| == 0 || caseSensitive[0];
      found <==> exists k :: 0 <= k < |list| && SameString(list[k], str, exact)
  {
    var isCaseSensitive := true;
    if |caseSensitive| > 0 {
      isCaseSensitive := caseSensitive[0];
    }
    var i := 0;
    if isCaseSensitive {
      while i < |list|
        invariant 0 <= i <= |list|
        invariant forall k :: 0 <= k < i ==> !SameString(list[k], str, isCaseSensitive)
      {
        if list[i] == str {
          return true;
        }
        i := i + 1;
      }
    } else {
      while i < |list|
        invariant 0 <= i <= |list|
        invariant forall k :: 0 <= k < i ==> !SameString(list[k], str, isCaseSensitive)
      {
        if ToLower(list[i]) == ToLower(str) {
          return true;
        }
        i := i + 1;
      }
    }
    return false;
  }

  /** Case-insensitive membership is implied by exact membership. */
  lemma ExactMatchIsCaseInsensitiveMatch(list: seq<string>, str: string)
    requires exists k :: 0 <= k < |list| && SameString(list[k], str, true)
    ensures exists k :: 0 <= k < |list| && SameString(list[k], str, false)
  {
    var k :| 0 <= k < |list| && SameString(list[k], str, true);
    assert SameString(list[k], str, false);
  }

  // ---------------------------------------------------------------------
  // StringArrayReplace

  /** One step of StringArrayReplace: replace every occurrence of `find`, after
      checking that there is one. */
  function ReplaceStep(s: string, find: string, replacement: string): string {
    if Contains(s, find) then ReplaceAll(s, find, replacement) else s
  }

  /** The string after the first `n` find/replace pairs were applied in order,
      or None when a step reads a replacement `listReplace` does not have: the
      source reads `listReplace[i]` only when `listFind[i]` occurs, and an index
      out of range panics. */
  function ReplacedUpTo(s: string, finds: seq<string>, replacements: seq<string>, n: nat): Option<string>
    requires n <= |finds|
    decreases n
  {
    if n == 0 then Some(s)
    else match ReplacedUpTo(s, finds, replacements, n - 1)
      case None => None
      case Some(t) =>
        if n - 1 < |replacements| then Some(ReplaceStep(t, finds[n - 1], replacements[n - 1]))
        else if Contains(t, finds[n - 1]) then None
        else Some(t)
  }

  /** `StringArrayReplace(str, listFind, listReplace)`: for each index in turn,
      replace every occurrence of `listFind[i]` by `listReplace[i]`; None is the
      index-out-of-range panic. */
  method StringArrayReplace(str: string, listFind: seq<string>, listReplace: seq<string>)
    returns (result: Option<string>)
    ensures result == ReplacedUpTo(str, listFind, listReplace, |listFind|)
  {
    var current := str;
    var i := 0;
    while i < |listFind|
      invariant 0 <= i <= |listFind|
      invariant ReplacedUpTo(str, listFind, listReplace, i) == Some(current)
    {
      var v := listFind[i];
      ContainsIndexOf(current, v);
      if IndexOf(current, v) > -1 {
        if i >= |listReplace| {
          NoneStaysNone(str, listFind, listReplace, i + 1, |listFind|);
          return None;
        }
        current := ReplaceAll(current, v, listReplace[i]);
      }
      i := i + 1;
    }
    return Some(current);
  }

  /** Once a step has panicked, so has every longer run. */
  lemma {:induction false} NoneStaysNone(s: string, finds: seq<string>, replacements: seq<string>, m: nat, n: nat)
    requires m <= n <= |finds|
    requires ReplacedUpTo(s, finds, replacements, m).None?
    ensures ReplacedUpTo(s, finds, replacements, n).None?
    decreases n - m
  {
    if m < n {
      NoneStaysNone(s, finds, replacements, m + 1, n);
    }
  }

  /** With a replacement for every find string nothing panics. */
  lemma {:induction false} ReplacedUpToTotal(s: string, finds: seq<string>, replacements: seq<string>, n: nat)
    requires n <= |finds| && n <= |replacements|
    ensures ReplacedUpTo(s, finds, replacements, n).Some?
    decreases n
  {
    if n > 0 {
      ReplacedUpToTotal(s, finds, replacements, n - 1);
    }
  }

  /** An empty find string without a replacement always panics, since every
      string contains the empty string. */
  lemma EmptyFindWithoutReplacementPanics(s: string, finds: seq<string>, replacements: seq<string>, i: nat)
    requires |replacements| <= i < |finds| && finds[i] == ""
    ensures ReplacedUpTo(s, finds, replacements, |finds|).None?
  {
    match ReplacedUpTo(s, finds, replacements, i)
    case None =>
      NoneStaysNone(s, finds, replacements, i, |finds|);
    case Some(t) =>
      assert OccursAt(t, "", 0);
      NoneStaysNone(s, finds, replacements, i + 1, |finds|);
  }

  /** A find string that does not occur needs no replacement: `"abc"` with the
      finds `["x"]` and no replacements comes back unchanged, while the find
      `["b"]` panics. */
  lemma MissingReplacementMattersOnlyOnMatch()
    ensures ReplacedUpTo("abc", ["x"], [], 1) == Some("abc")
    ensures ReplacedUpTo("abc", ["b"], [], 1).None?
  {
    MissingCharNotContained("abc", "x", 0);
    ContainsSelf("b", "a", "c");
    assert "a" + "b" + "c" == "abc";
  }

  /** The `strings.Contains` guard changes nothing once a replacement is at
      hand: replacing when nothing occurs is already the identity. */
  lemma ReplaceStepIsReplaceAll(s: string, find: string, replacement: string)
    ensures ReplaceStep(s, find, replacement) == ReplaceAll(s, find, replacement)
  {
    if !Contains(s, find) {
      if find == [] {
        IndexOfEmpty(s);
        ContainsIndexOf(s, find);
      } else {
        ReplaceAbsent(s, find, replacement);
      }
    }
  }

  /** Pairs that replace a string by itself leave the input unchanged. */
  lemma {:induction false} ReplacedUpToIdentity(s: string, finds: seq<string>, replacements: seq<string>, n: nat)
    requires n <= |finds| && n <= |replacements|
    requires forall i :: 0 <= i < n ==> finds[i] == replacements[i]
    ensures ReplacedUpTo(s, finds, replacements, n) == Some(s)
    decreases n
  {
    if n > 0 {
      ReplacedUpToIdentity(s, finds, replacements, n - 1);
      ReplaceStepIsReplaceAll(s, finds[n - 1], replacements[n - 1]);
      ReplaceSelf(s, finds[n - 1]);
    }
  }

  /** Pairs whose find and replacement have the same non-zero length keep the
      length of the input. */
  lemma {:induction false} ReplacedUpToKeepsLength(s: string, finds: seq<string>, replacements: seq<string>, n: nat)
    requires n <= |finds| && n <= |replacements|
    requires forall i :: 0 <= i < n ==> finds[i] != [] && |finds[i]| == |replacements[i]|
    ensures ReplacedUpTo(s, finds, replacements, n).Some?
    ensures |ReplacedUpTo(s, finds, replacements, n).value| == |s|
    decreases n
  {
    if n > 0 {
      ReplacedUpToKeepsLength(s, finds, replacements, n - 1);
      var prev := ReplacedUpTo(s, finds, replacements, n - 1).value;
      ReplaceStepIsReplaceAll(prev, finds[n - 1], replacements[n - 1]);
      ReplaceKeepsLength(prev, finds[n - 1], replacements[n - 1]);
    }
  }

  // ---------------------------------------------------------------------
  // MergeMaps

  /** `MergeMaps(map1, map2)`: a fresh map holding every key of either input;
      on a shared key the value of `map2` wins. The inputs are values here, so
      they are left as they were. */
  method MergeMaps<V>(map1: map<string, V>, map2: map<string, V>) returns (result: map<string, V>)
    ensures result.Keys == map1.Keys + map2.Keys
    ensures forall k :: k in map2 ==> result[k] == map2[k]
    ensures forall k :: k in map1 && k !in map2 ==> result[k] == map1[k]
  {
    result := map[];
    var todo := map1.Keys;
    while todo != {}
      invariant todo <= map1.Keys
      invariant result.Keys == map1.Keys - todo
      invariant forall k :: k in result ==> result[k] == map1[k]
      decreases todo
    {
      var k :| k in todo;
      result := result[k := map1[k]];
      todo := todo - {k};
    }
    todo := map2.Keys;
    while todo != {}
      invariant todo <= map2.Keys
      invariant result.Keys == map1.Keys + (map2.Keys - todo)
      invariant forall k :: k in map2 && k !in todo ==> result[k] == map2[k]
      invariant forall k :: k in map1 && (k !in map2 || k in todo) ==> result[k] == map1[k]
      decreases todo
    {
      var k :| k in todo;
      result := result[k := map2[k]];
      todo := todo - {k};
    }
  }
}
