/** The Discord CDN avatar URL, computed the same way by the server's
    notification service and by the client's marketplace composable. */
module Avatars {
  import opened Wrappers
  import opened Text

  const CdnBase: string := "https://cdn.discordapp.com"

  /** JavaScript `%` on integers: the remainder takes the sign of the
      dividend (it truncates toward zero). */
  function JsRemainder(a: int, b: int): (r: int)
    requires b > 0
    ensures -b < r < b
    ensures a >= 0 ==> 0 <= r && r == a % b
    ensures a < 0 ==> r <= 0 && r == 0 - (0 - a) % b
  {
    if a >= 0 then a % b else 0 - ((0 - a) % b)
  }

  /** `parseInt(discordId) % 5`, rendered as JavaScript renders it: `NaN`
      when the id does not start with a number. */
  function DefaultAvatarIndex(discordId: string): (r: string)
    ensures ParseIntLenient(discordId).None? ==> r == "NaN"
    ensures ParseIntLenient(discordId).Some? ==>
              r == IntToString(JsRemainder(ParseIntLenient(discordId).value, 5))
  {
    match ParseIntLenient(discordId)
    case Some(v) => IntToString(JsRemainder(v, 5))
    case None => "NaN"
  }

  /** With no avatar hash, one of the five default avatars picked by the id;
      otherwise the user's own avatar at size 128. */
  function AvatarUrl(discordId: string, avatar: Option<string>): (r: string)
    ensures avatar.None? || avatar.value == "" ==>
              StartsWith(r, CdnBase + "/embed/avatars/") && EndsWith(r, DefaultAvatarIndex(discordId) + ".png")
    ensures avatar.Some? && avatar.value != "" ==>
              StartsWith(r, CdnBase + "/avatars/" + discordId + "/") && EndsWith(r, avatar.value + ".png?size=128")
  {
    if avatar.None? || avatar.value == "" then
      var head, tail := CdnBase + "/embed/avatars/", DefaultAvatarIndex(discordId) + ".png";
      ConcatAffixes(head, tail);
      head + tail
    else
      var head, tail := CdnBase + "/avatars/" + discordId + "/", avatar.value + ".png?size=128";
      ConcatAffixes(head, tail);
      head + tail
  }

  /** A default avatar is never mistaken for a user's own one: the two
      URLs differ right after the CDN host. */
  lemma DefaultAndOwnAvatarsDiffer(id1: string, id2: string, avatar: string)
    requires avatar != ""
    ensures AvatarUrl(id1, None) != AvatarUrl(id2, Some(avatar))
  {
    var n := |CdnBase|;
    var a, b := AvatarUrl(id1, None), AvatarUrl(id2, Some(avatar));
    var h1, h2 := CdnBase + "/embed/avatars/", CdnBase + "/avatars/";
    var h2id := h2 + id2 + "/";
    PathsDifferAfterSlash();
    assert h1[n + 1] == "/embed/avatars/"[1];
    assert h2[n + 1] == "/avatars/"[1];
    assert h2id[n + 1] == h2[n + 1];
    assert a[..|h1|] == h1 && b[..|h2id|] == h2id;
    assert a[n + 1] == h1[n + 1];
    assert b[n + 1] == h2id[n + 1];
  }

  /** The two avatar paths part at their second character. */
  lemma PathsDifferAfterSlash()
    ensures "/embed/avatars/"[1] != "/avatars/"[1]
  {
  }

  /** For a well-formed Discord id the default avatar is the one numbered by
      the id's value modulo 5, a single digit from 0 to 4. */
  lemma DefaultAvatarOfValidId(discordId: string)
    requires 0 < |discordId| && AllDigits(discordId)
    ensures DefaultAvatarIndex(discordId) == [DigitChar(DigitsValue(discordId) % 5)]
  {
    var v := DigitsValue(discordId);
    LeadingDigitsParse(discordId);
    assert JsRemainder(v, 5) == v % 5;
    assert NatToString(v % 5) == [DigitChar(v % 5)];
  }

  /** `parseInt` of a non-empty digit string is its decimal value. */
  lemma LeadingDigitsParse(s: string)
    requires 0 < |s| && AllDigits(s)
    ensures ParseIntLenient(s) == Some(DigitsValue(s) as int)
  {
    assert !IsSpace(s[0]) && s[0] != '-' && s[0] != '+';
    assert TrimStart(s) == s;
    assert Unsigned(s) == s;
    LeadingValueOfDigits(s);
  }
}
