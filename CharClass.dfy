/** The rune predicates and the character-class validators of helper.go. Each
    validator scans the runes once, remembers which classes it has seen, and
    decides. The source writes `counter = +1`, which assigns 1 rather than
    incrementing; the model keeps that, so a counter means "seen at least one". */
module CharClass {

  /** `IsUppercase`: 'A'..'Z' (65..90). */
  predicate IsUppercase(r: char) {
    65 <= r as int <= 90
  }

  /** `IsLowercase`: 'a'..'z' (97..122). */
  predicate IsLowercase(r: char) {
    97 <= r as int <= 122
  }

  /** `IsNumeric`: '0'..'9' (48..57). */
  predicate IsNumeric(r: char) {
    48 <= r as int <= 57
  }

  /** `IsAllowedSymbol`: the printable ASCII runes that are neither letters nor digits. */
  predicate IsAllowedSymbol(r: char) {
    var m := r as int;
    (32 <= m <= 47) || (58 <= m <= 64) || (91 <= m <= 96) || (123 <= m <= 126)
  }

  predicate IsLetter(r: char) {
    IsUppercase(r) || IsLowercase(r)
  }

  /** The runes ValidateLatinOnly accepts. */
  predicate IsLatin(r: char) {
    IsUppercase(r) || IsLowercase(r) || IsNumeric(r) || IsAllowedSymbol(r)
  }

  /** The four rune classes are pairwise disjoint and together are exactly the
      printable ASCII range 32..126. */
  lemma RuneClassesPartitionPrintable(r: char)
    ensures IsLatin(r) <==> 32 <= r as int <= 126
    ensures !(IsUppercase(r) && IsLowercase(r)) && !(IsLetter(r) && IsNumeric(r))
    ensures !(IsAllowedSymbol(r) && (IsLetter(r) || IsNumeric(r)))
  {
  }

  /** `s` contains at least one rune satisfying the class. */
  predicate HasUpper(s: string) { exists j :: 0 <= j < |s| && IsUppercase(s[j]) }
  predicate HasLower(s: string) { exists j :: 0 <= j < |s| && IsLowercase(s[j]) }
  predicate HasNumeric(s: string) { exists j :: 0 <= j < |s| && IsNumeric(s[j]) }
  predicate HasSpace(s: string) { exists j :: 0 <= j < |s| && s[j] == ' ' }
  predicate HasLetter(s: string) { HasUpper(s) || HasLower(s) }

  // ---------------------------------------------------------------------
  // What each validator accepts, stated over the whole string.

  /** Non-empty and only digits. */
  predicate NumericOnly(s: string) {
    |s| > 0 && forall j :: 0 <= j < |s| ==> IsNumeric(s[j])
  }

  /** Non-empty and only ASCII letters. */
  predicate AlphabetOnly(s: string) {
    |s| > 0 && forall j :: 0 <= j < |s| ==> IsLetter(s[j])
  }

  /** Non-empty and only ASCII letters and spaces. */
  predicate AlphabetWithSpaceOnly(s: string) {
    |s| > 0 && forall j :: 0 <= j < |s| ==> IsLetter(s[j]) || s[j] == ' '
  }

  /** Only letters and digits; with `must` at least one of each, otherwise non-empty. */
  predicate AlphanumericOnly(s: string, must: bool) {
    && (forall j :: 0 <= j < |s| ==> IsLetter(s[j]) || IsNumeric(s[j]))
    && if must then HasLetter(s) && HasNumeric(s) else |s| > 0
  }

  /** Only letters, digits and spaces; with `must` at least one letter, one digit
      and one space, otherwise non-empty. */
  predicate AlphanumericWithSpaceOnly(s: string, must: bool) {
    && (forall j :: 0 <= j < |s| ==> IsLetter(s[j]) || IsNumeric(s[j]) || s[j] == ' ')
    && if must then HasLetter(s) && HasNumeric(s) && HasSpace(s) else |s| > 0
  }

  /** Only printable-ASCII runes; the empty string qualifies. */
  predicate LatinOnly(s: string) {
    forall j :: 0 <= j < |s| ==> IsLatin(s[j])
  }

  /** 1 when some rune of `s[..i]` is in the class, else 0: the value of a
      source counter after `i` runes. */
  function SeenUpper(s: string, i: int): int requires 0 <= i <= |s| {
    if exists j :: 0 <= j < i && IsUppercase(s[j]) then 1 else 0
  }
  function SeenLower(s: string, i: int): int requires 0 <= i <= |s| {
    if exists j :: 0 <= j < i && IsLowercase(s[j]) then 1 else 0
  }
  function SeenNumeric(s: string, i: int): int requires 0 <= i <= |s| {
    if exists j :: 0 <= j < i && IsNumeric(s[j]) then 1 else 0
  }

  // ---------------------------------------------------------------------
  // The validators.

  /** `ValidateNumeric`: true iff `str` is non-empty and all digits. */
  method ValidateNumeric(str: string) returns (valid: bool)
    ensures valid <==> NumericOnly(str)
  {
    var num, symbol := 0, 0;
    var i := 0;
    while i < |str|
      invariant 0 <= i <= |str|
      invariant num == SeenNumeric(str, i)
      invariant symbol == 0 <==> forall j :: 0 <= j < i ==> IsNumeric(str[j])
    {
      var r := str[i];
      if r as int >= 48 && r as int <= 57 {
        num := 1;
      } else {
        symbol := 1;
      }
      i := i + 1;
    }
    if symbol > 0 {
      return false;
    }
    if |str| > 0 {
      assert IsNumeric(str[0]);
    }
    return num >= 1;
  }

  /** `ValidateAlphabet`: true iff `str` is non-empty and all ASCII letters. */
  method ValidateAlphabet(str: string) returns (valid: bool)
    ensures valid <==> AlphabetOnly(str)
  {
    var uppercase, lowercase, symbol := 0, 0, 0;
    var i := 0;
    while i < |str|
      invariant 0 <= i <= |str|
      invariant uppercase == SeenUpper(str, i) && lowercase == SeenLower(str, i)
      invariant symbol == 0 <==> forall j :: 0 <= j < i ==> IsLetter(str[j])
    {
      var r := str[i];
      if IsUppercase(r) {
        uppercase := 1;
      } else if IsLowercase(r) {
        lowercase := 1;
      } else {
        symbol := 1;
      }
      i := i + 1;
    }
    if symbol > 0 {
      return false;
    }
    if |str| > 0 {
      assert IsUppercase(str[0]) || IsLowercase(str[0]);
    }
    return uppercase >= 1 || lowercase >= 1;
  }

  /** `ValidateAlphabetWithSpace`: true iff `str` is non-empty and all ASCII
      letters and spaces. */
  method ValidateAlphabetWithSpace(str: string) returns (valid: bool)
    ensures valid <==> AlphabetWithSpaceOnly(str)
  {
    var uppercase, lowercase, space, symbol := 0, 0, 0, 0;
    var i := 0;
    while i < |str|
      invariant 0 <= i <= |str|
      invariant uppercase == SeenUpper(str, i) && lowercase == SeenLower(str, i)
      invariant space == 0 <==> forall j :: 0 <= j < i ==> str[j] != ' '
      invariant space == 0 || space == 1
      invariant symbol == 0 <==> forall j :: 0 <= j < i ==> IsLetter(str[j]) || str[j] == ' '
    {
      var r := str[i];
      if IsUppercase(r) {
        uppercase := 1;
      } else if IsLowercase(r) {
        lowercase := 1;
      } else if r as int == 32 {
        space := 1;
      } else {
        symbol := 1;
      }
      i := i + 1;
    }
    if symbol > 0 {
      return false;
    }
    if |str| > 0 {
      assert IsUppercase(str[0]) || IsLowercase(str[0]) || str[0] == ' ';
    }
    return uppercase >= 1 || lowercase >= 1 || space >= 1;
  }

  /** `ValidateAlphanumeric`: false on any rune outside letters and digits; then
      with `must` true iff there is a letter and a digit, without `must` true iff
      `str` is non-empty. */
  method ValidateAlphanumeric(str: string, must: bool) returns (valid: bool)
    ensures valid <==> AlphanumericOnly(str, must)
  {
    var uppercase, lowercase, num, symbol := 0, 0, 0, 0;
    var i := 0;
    while i < |str|
      invariant 0 <= i <= |str|
      invariant uppercase == SeenUpper(str, i) && lowercase == SeenLower(str, i)
      invariant num == SeenNumeric(str, i)
      invariant symbol == 0 <==> forall j :: 0 <= j < i ==> IsLetter(str[j]) || IsNumeric(str[j])
    {
      var r := str[i];
      if IsUppercase(r) {
        uppercase := 1;
      } else if IsLowercase(r) {
        lowercase := 1;
      } else if IsNumeric(r) {
        num := 1;
      } else {
        symbol := 1;
      }
      i := i + 1;
    }
    if symbol > 0 {
      return false;
    }
    if must {
      return (uppercase >= 1 || lowercase >= 1) && num >= 1;
    }
    if |str| > 0 {
      assert IsUppercase(str[0]) || IsLowercase(str[0]) || IsNumeric(str[0]);
    }
    return uppercase >= 1 || lowercase >= 1 || num >= 1;
  }

  /** `ValidateAlphanumericWithSpace`: false on any rune outside letters, digits
      and space; then with `must` true iff there is a letter, a digit and a
      space, without `must` true iff `str` is non-empty. */
  method ValidateAlphanumericWithSpace(str: string, must: bool) returns (valid: bool)
    ensures valid <==> AlphanumericWithSpaceOnly(str, must)
  {
    var uppercase, lowercase, num, space, symbol := 0, 0, 0, 0, 0;
    var i := 0;
    while i < |str|
      invariant 0 <= i <= |str|
      invariant uppercase == SeenUpper(str, i) && lowercase == SeenLower(str, i)
      invariant num == SeenNumeric(str, i)
      invariant space == 0 <==> forall j :: 0 <= j < i ==> str[j] != ' '
      invariant space == 0 || space == 1
      invariant symbol == 0 <==>
        forall j :: 0 <= j < i ==> IsLetter(str[j]) || IsNumeric(str[j]) || str[j] == ' '
    {
      var r := str[i];
      if IsUppercase(r) {
        uppercase := 1;
      } else if IsLowercase(r) {
        lowercase := 1;
      } else if IsNumeric(r) {
        num := 1;
      } else if r as int == 32 {
        space := 1;
      } else {
        symbol := 1;
      }
      i := i + 1;
    }
    if symbol > 0 {
      return false;
    }
    if must {
      return (uppercase >= 1 || lowercase >= 1) && num >= 1 && space >= 1;
    }
    if |str| > 0 {
      assert IsUppercase(str[0]) || IsLowercase(str[0]) || IsNumeric(str[0]) || str[0] == ' ';
    }
    return (uppercase >= 1 || lowercase >= 1 || num >= 1) || space >= 1;
  }

  /** `ValidateLatinOnly`: true iff every rune is printable ASCII. The final
      test ends in `allowed >= 0`, which always holds, so the empty string is
      accepted as well. */
  method ValidateLatinOnly(str: string) returns (valid: bool)
    ensures valid <==> LatinOnly(str)
  {
    var uppercase, lowercase, num, allowed, symbol := 0, 0, 0, 0, 0;
    var i := 0;
    while i < |str|
      invariant 0 <= i <= |str|
      invariant allowed == 0 || allowed == 1
      invariant symbol == 0 <==> forall j :: 0 <= j < i ==> IsLatin(str[j])
    {
      var r := str[i];
      if IsUppercase(r) {
        uppercase := 1;
      } else if IsLowercase(r) {
        lowercase := 1;
      } else if IsNumeric(r) {
        num := 1;
      } else if IsAllowedSymbol(r) {
        allowed := 1;
      } else {
        symbol := 1;
      }
      i := i + 1;
    }
    if symbol > 0 {
      return false;
    }
    return uppercase >= 1 || lowercase >= 1 || num >= 1 || allowed >= 0;
  }

  /** Non-empty and only printable-ASCII runes: what ValidateLatinOnly accepts
      when its final test reads `allowed >= 1`, like the other counters. */
  predicate LatinText(s: string) {
    |s| > 0 && LatinOnly(s)
  }

  /** ValidateLatinOnly with the final test `allowed >= 1`: the empty string is
      rejected, as by every other validator. */
  method ValidateLatinText(str: string) returns (valid: bool)
    ensures valid <==> LatinText(str)
  {
    var uppercase, lowercase, num, allowed, symbol := 0, 0, 0, 0, 0;
    var i := 0;
    while i < |str|
      invariant 0 <= i <= |str|
      invariant (uppercase >= 1 || lowercase >= 1 || num >= 1 || allowed >= 1 || symbol >= 1) <==> i > 0
      invariant symbol == 0 <==> forall j :: 0 <= j < i ==> IsLatin(str[j])
    {
      var r := str[i];
      if IsUppercase(r) {
        uppercase := 1;
      } else if IsLowercase(r) {
        lowercase := 1;
      } else if IsNumeric(r) {
        num := 1;
      } else if IsAllowedSymbol(r) {
        allowed := 1;
      } else {
        symbol := 1;
      }
      i := i + 1;
    }
    if symbol > 0 {
      return false;
    }
    return uppercase >= 1 || lowercase >= 1 || num >= 1 || allowed >= 1;
  }

  /** The empty string passes ValidateLatinOnly as written, while every other
      validator, and the corrected check, reject it. */
  lemma EmptyPassesOnlyLatinOnly()
    ensures LatinOnly("") && !LatinText("")
    ensures !NumericOnly("") && !AlphabetOnly("") && !AlphabetWithSpaceOnly("")
    ensures !AlphanumericOnly("", false) && !AlphanumericWithSpaceOnly("", false)
  {
  }

  /** The corrected check still accepts everything the validators that allow
      a space accept, and hence everything the others accept. */
  lemma LatinTextCoversOtherValidators(s: string)
    ensures AlphanumericWithSpaceOnly(s, false) || AlphabetWithSpaceOnly(s) ==> LatinText(s)
    ensures NumericOnly(s) || AlphabetOnly(s) || AlphanumericOnly(s, false) ==> LatinText(s)
  {
  }

  // ---------------------------------------------------------------------
  // How the validators relate.

  /** ValidateLatinOnly accepts exactly the strings of printable ASCII runes. */
  lemma LatinOnlyIsPrintableAscii(s: string)
    ensures LatinOnly(s) <==> forall j :: 0 <= j < |s| ==> 32 <= s[j] as int <= 126
  {
    forall j | 0 <= j < |s| ensures IsLatin(s[j]) <==> 32 <= s[j] as int <= 126 {
      RuneClassesPartitionPrintable(s[j]);
    }
  }

  /** The validators form a chain: digits only, letters only, letters with
      space and alphanumeric strings are all Latin-only; the `must` forms are
      stricter than the plain ones. */
  lemma ValidatorsNest(s: string)
    ensures NumericOnly(s) ==> AlphanumericOnly(s, false)
    ensures AlphabetOnly(s) ==> AlphanumericOnly(s, false) && AlphabetWithSpaceOnly(s)
    ensures AlphanumericOnly(s, true) ==> AlphanumericOnly(s, false)
    ensures AlphanumericWithSpaceOnly(s, true) ==> AlphanumericWithSpaceOnly(s, false)
    ensures AlphanumericOnly(s, false) ==> AlphanumericWithSpaceOnly(s, false) && LatinOnly(s)
    ensures AlphabetWithSpaceOnly(s) ==> LatinOnly(s)
  {
  }

  /** A string of digits alone never passes the `must` alphanumeric check, and a
      string that passes the `must` form with space is not alphanumeric. */
  lemma MustNeedsEveryClass(s: string)
    ensures NumericOnly(s) ==> !AlphanumericOnly(s, true)
    ensures AlphanumericWithSpaceOnly(s, true) ==> !AlphanumericOnly(s, false)
  {
    if NumericOnly(s) {
      forall j | 0 <= j < |s| ensures !IsLetter(s[j]) {
        assert IsNumeric(s[j]);
      }
    }
    if AlphanumericWithSpaceOnly(s, true) {
      var j :| 0 <= j < |s| && s[j] == ' ';
      assert !IsLetter(s[j]) && !IsNumeric(s[j]);
    }
  }
}
