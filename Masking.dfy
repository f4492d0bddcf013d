/** MaskPassword (helper.go): redacts the password fields of an `&`-separated
    form body before it is attached to a trace. */
module Masking {
  import opened StringOps

  const PasswordKey: string := "password="
  const NewPasswordKey: string := "newPassword="
  const RePasswordKey: string := "rePassword="

  const MaskedPassword: string := "password=xxxxx"
  const MaskedNewPassword: string := "newPassword=xxxxx"
  const MaskedRePassword: string := "rePassword=xxxxx"

  /** The three sequential rewrites the loop body applies to one token. */
  function MaskToken(t: string): string {
    var t1 := if Contains(t, PasswordKey) then MaskedPassword else t;
    var t2 := if Contains(t1, NewPasswordKey) then MaskedNewPassword else t1;
    if Contains(t2, RePasswordKey) then MaskedRePassword else t2
  }

  /** A token that carries one of the three keys. */
  predicate Sensitive(t: string) {
    Contains(t, PasswordKey) || Contains(t, NewPasswordKey) || Contains(t, RePasswordKey)
  }

  /** Each masked token carries its own key. */
  lemma MaskedTokensKeepKey()
    ensures Contains(MaskedPassword, PasswordKey)
    ensures Contains(MaskedNewPassword, NewPasswordKey)
    ensures Contains(MaskedRePassword, RePasswordKey)
  {
    assert MaskedPassword[..|PasswordKey|] == PasswordKey;
    assert OccursAt(MaskedPassword, PasswordKey, 0);
    assert MaskedNewPassword[..|NewPasswordKey|] == NewPasswordKey;
    assert OccursAt(MaskedNewPassword, NewPasswordKey, 0);
    assert MaskedRePassword[..|RePasswordKey|] == RePasswordKey;
    assert OccursAt(MaskedRePassword, RePasswordKey, 0);
  }

  /** No masked token carries a key that the loop body checks after its own. */
  lemma MaskedTokensLackLaterKeys()
    ensures !Contains(MaskedPassword, NewPasswordKey) && !Contains(MaskedPassword, RePasswordKey)
    ensures !Contains(MaskedNewPassword, RePasswordKey)
  {
    // 'P' occurs in both camel-case keys and nowhere in "password=xxxxx".
    MissingCharNotContained(MaskedPassword, NewPasswordKey, 3);
    MissingCharNotContained(MaskedPassword, RePasswordKey, 2);
    NewPasswordNoRe();
  }

  /** No masked token carries a key that the loop body checks before its own. */
  lemma MaskedTokensLackEarlierKeys()
    ensures !Contains(MaskedNewPassword, PasswordKey)
    ensures !Contains(MaskedRePassword, PasswordKey) && !Contains(MaskedRePassword, NewPasswordKey)
  {
    // A lower-case 'p' starts "password=" and occurs in neither camel-case token;
    // 'n' starts "newPassword=" and does not occur in "rePassword=xxxxx".
    MissingCharNotContained(MaskedNewPassword, PasswordKey, 0);
    MissingCharNotContained(MaskedRePassword, PasswordKey, 0);
    MissingCharNotContained(MaskedRePassword, NewPasswordKey, 0);
  }

  /** All facts about the masked tokens used below; none of them holds an `&`. */
  lemma MaskedTokenFacts()
    ensures Contains(MaskedPassword, PasswordKey)
    ensures !Contains(MaskedPassword, NewPasswordKey) && !Contains(MaskedPassword, RePasswordKey)
    ensures !Contains(MaskedNewPassword, PasswordKey) && Contains(MaskedNewPassword, NewPasswordKey)
    ensures !Contains(MaskedNewPassword, RePasswordKey)
    ensures !Contains(MaskedRePassword, PasswordKey) && !Contains(MaskedRePassword, NewPasswordKey)
    ensures Contains(MaskedRePassword, RePasswordKey)
    ensures '&' !in MaskedPassword && '&' !in MaskedNewPassword && '&' !in MaskedRePassword
  {
    MaskedTokensKeepKey();
    MaskedTokensLackLaterKeys();
    MaskedTokensLackEarlierKeys();
  }

  /** "newPassword=xxxxx" does not contain "rePassword=": the only 'P' sits at
      index 3, so a match would start at 1, where 'e' stands instead of 'r'. */
  lemma NewPasswordNoRe()
    ensures !Contains(MaskedNewPassword, RePasswordKey)
  {
    var s, sub := MaskedNewPassword, RePasswordKey;
    forall j
      ensures !OccursAt(s, sub, j)
    {
      if 0 <= j && j + |sub| <= |s| {
        assert s[j..j + |sub|][2] == s[j + 2];
        assert s[j..j + |sub|][0] == s[j];
        assert j == 0 || j == 1 || j == 2 || j == 3 || j == 4 || j == 5 || j == 6;
      }
    }
  }

  /** What MaskToken does, case by case: the first key found (in the order
      password=, newPassword=, rePassword=) decides the masked token, and a token
      with none of them is kept. */
  lemma MaskTokenCases(t: string)
    ensures Contains(t, PasswordKey) ==> MaskToken(t) == MaskedPassword
    ensures !Contains(t, PasswordKey) && Contains(t, NewPasswordKey) ==> MaskToken(t) == MaskedNewPassword
    ensures !Contains(t, PasswordKey) && !Contains(t, NewPasswordKey) && Contains(t, RePasswordKey)
      ==> MaskToken(t) == MaskedRePassword
    ensures !Sensitive(t) ==> MaskToken(t) == t
  {
    MaskedTokenFacts();
  }

  /** Masking a token twice is masking it once; a masked token holds no `&`. */
  lemma MaskTokenIdempotent(t: string)
    requires '&' !in t
    ensures MaskToken(MaskToken(t)) == MaskToken(t)
    ensures '&' !in MaskToken(t)
  {
    MaskedTokenFacts();
    MaskTokenCases(t);
  }

  /** MaskToken applied to every token. */
  function MaskTokens(ts: seq<string>): (r: seq<string>)
    ensures |r| == |ts|
    ensures forall i :: 0 <= i < |ts| ==> r[i] == MaskToken(ts[i])
  {
    seq(|ts|, i requires 0 <= i < |ts| => MaskToken(ts[i]))
  }

  /** The text MaskPassword returns: its tokens, masked one by one, rejoined by `&`. */
  function MaskedText(s: string): string {
    Join(MaskTokens(Split(s, '&')), '&')
  }

  /** One more masked token extends the `&`-join of the masked prefix. */
  lemma JoinMaskedPrefix(ts: seq<string>, i: nat)
    requires i < |ts|
    ensures Join(MaskTokens(ts)[..i + 1], '&') ==
      if i < 1 then MaskToken(ts[i]) else Join(MaskTokens(ts)[..i], '&') + "&" + MaskToken(ts[i])
  {
    var ms := MaskTokens(ts);
    assert ms[..i + 1] == ms[..i] + [ms[i]];
    if i >= 1 {
      JoinSnoc(ms[..i], ms[i], '&');
    }
  }

  /** `MaskPassword`: split on `&`, mask each token, and rebuild the text. */
  method MaskPassword(s: string) returns (newText: string)
    ensures newText == MaskedText(s)
  {
    var splitText := Split(s, '&');
    newText := "";
    var i := 0;
    while i < |splitText|
      invariant 0 <= i <= |splitText|
      invariant newText == Join(MaskTokens(splitText)[..i], '&')
    {
      var text := splitText[i];
      ContainsIndexOf(text, PasswordKey);
      if IndexOf(text, PasswordKey) > -1 {
        text := MaskedPassword;
      }
      ContainsIndexOf(text, NewPasswordKey);
      if IndexOf(text, NewPasswordKey) > -1 {
        text := MaskedNewPassword;
      }
      ContainsIndexOf(text, RePasswordKey);
      if IndexOf(text, RePasswordKey) > -1 {
        text := MaskedRePassword;
      }
      assert text == MaskToken(splitText[i]);
      JoinMaskedPrefix(splitText, i);
      if i < 1 {
        newText := text;
      } else {
        newText := newText + "&" + text;
      }
      i := i + 1;
    }
    assert MaskTokens(splitText)[..i] == MaskTokens(splitText);
  }

  /** The masked text has exactly as many `&`-separated tokens as the input, in
      the same order, each the masked form of the input token at its place. */
  lemma MaskedTextTokens(s: string)
    ensures Split(MaskedText(s), '&') == MaskTokens(Split(s, '&'))
    ensures |Split(MaskedText(s), '&')| == |Split(s, '&')|
  {
    var ts := Split(s, '&');
    forall i | 0 <= i < |ts| ensures '&' !in MaskTokens(ts)[i] {
      MaskTokenIdempotent(ts[i]);
    }
    SplitJoin(MaskTokens(ts), '&');
  }

  /** Token by token: a token with `password=` becomes `password=xxxxx`, one
      with `newPassword=` becomes `newPassword=xxxxx`, one with `rePassword=`
      becomes `rePassword=xxxxx`, and any other token is kept. */
  lemma MaskedTextAt(s: string, i: nat)
    requires i < |Split(s, '&')|
    ensures |Split(MaskedText(s), '&')| == |Split(s, '&')|
    ensures var t := Split(s, '&')[i];
      var m := Split(MaskedText(s), '&')[i];
      && (Contains(t, PasswordKey) ==> m == MaskedPassword)
      && (!Contains(t, PasswordKey) && Contains(t, NewPasswordKey) ==> m == MaskedNewPassword)
      && (!Contains(t, PasswordKey) && !Contains(t, NewPasswordKey) && Contains(t, RePasswordKey)
          ==> m == MaskedRePassword)
      && (!Sensitive(t) ==> m == t)
  {
    MaskedTextTokens(s);
    MaskTokenCases(Split(s, '&')[i]);
  }

  /** Text none of whose tokens carries a key comes back unchanged; the empty
      string is such a text. */
  lemma MaskedTextUnchanged(s: string)
    requires forall i :: 0 <= i < |Split(s, '&')| ==> !Sensitive(Split(s, '&')[i])
    ensures MaskedText(s) == s
  {
    var ts := Split(s, '&');
    forall i | 0 <= i < |ts| ensures MaskTokens(ts)[i] == ts[i] {
      MaskTokenCases(ts[i]);
    }
    assert MaskTokens(ts) == ts;
    JoinSplit(s, '&');
  }

  /** Masking twice is masking once. */
  lemma MaskedTextIdempotent(s: string)
    ensures MaskedText(MaskedText(s)) == MaskedText(s)
  {
    var ms := MaskTokens(Split(s, '&'));
    MaskedTextTokens(s);
    forall i | 0 <= i < |ms| ensures MaskTokens(ms)[i] == ms[i] {
      MaskTokenIdempotent(Split(s, '&')[i]);
    }
    assert MaskTokens(ms) == ms;
  }
}
