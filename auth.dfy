/** `splitAuthToken` (index.mjs): the token of an `Authorization: Bearer`
    header (the scheme of section 2.1 of RFC 6750), split on a separator
    into an expected number of parts, or no parts at all when anything is
    off. */
module Auth {
  import opened Wrappers
  import opened Text

  const Bearer := "Bearer "

  /** The text after `Bearer `, when the header starts with it. */
  function TokenOf(authorization: Option<string>): Option<string> {
    if authorization.Some? && StartsWith(authorization.value, Bearer) then
      Some(authorization.value[|Bearer|..])
    else None
  }

  /** `splitAuthToken(authorization, split, partsCount)`: a missing header
      is None; an empty separator splits into single characters. The empty
      header, which the source tests for first, fails the prefix test as
      well. */
  function SplitAuthToken(authorization: Option<string>, split: string, partsCount: int): (parts: seq<string>)
    ensures |parts| > 0 ==>
      TokenOf(authorization).Some? && |parts| == partsCount && Join(parts, split) == TokenOf(authorization).value
    ensures TokenOf(authorization).None? ==> parts == []
    ensures TokenOf(authorization) == Some("") ==> parts == []
    ensures TokenOf(authorization).Some? && !Includes(TokenOf(authorization).value, split) ==> parts == []
    ensures |parts| > 0 && split != "" ==>
      parts == Split(TokenOf(authorization).value, split) &&
      forall k :: 0 <= k < |parts| ==> !Includes(parts[k], split)
    ensures |parts| > 0 && split == "" && partsCount != 1 ==>
      var token := TokenOf(authorization).value;
      |parts| == |token| && forall k :: 0 <= k < |parts| ==> parts[k] == [token[k]]
    ensures TokenOf(authorization).Some? && split != "" && Includes(TokenOf(authorization).value, split) ==>
      var pieces := Split(TokenOf(authorization).value, split);
      parts == if |pieces| == partsCount then pieces else []
    ensures TokenOf(authorization).Some? && TokenOf(authorization).value != "" && split == "" ==>
      var token := TokenOf(authorization).value;
      parts == if partsCount == 1 then [token] else if partsCount == |token| then Chars(token) else []
  {
    match TokenOf(authorization)
    case None => []
    case Some(authToken) => SplitToken(authToken, split, partsCount)
  }

  /** The part of `splitAuthToken` after the prefix is stripped. */
  function SplitToken(authToken: string, split: string, partsCount: int): (parts: seq<string>)
    ensures |parts| > 0 ==> |parts| == partsCount && Join(parts, split) == authToken
    ensures authToken == "" || !Includes(authToken, split) ==> parts == []
    ensures |parts| > 0 && split != "" ==>
      parts == Split(authToken, split) && forall k :: 0 <= k < |parts| ==> !Includes(parts[k], split)
    ensures |parts| > 0 && split == "" && partsCount != 1 ==>
      |parts| == |authToken| && forall k :: 0 <= k < |parts| ==> parts[k] == [authToken[k]]
    ensures split != "" && Includes(authToken, split) ==>
      var pieces := Split(authToken, split);
      parts == if |pieces| == partsCount then pieces else []
    ensures authToken != "" && split == "" ==>
      parts == if partsCount == 1 then [authToken] else if partsCount == |authToken| then Chars(authToken) else []
  {
    if authToken == "" || !Includes(authToken, split) then []
    else if split == "" && partsCount == 1 then [authToken]
    else
      var parts := if split == "" then Chars(authToken) else Split(authToken, split);
      if |parts| != partsCount then [] else parts
  }

  /** The token of a header that starts with `Bearer ` is the rest of it. */
  lemma BearerToken(token: string)
    ensures TokenOf(Some(Bearer + token)) == Some(token)
  {
    assert (Bearer + token)[..|Bearer|] == Bearer;
    assert (Bearer + token)[|Bearer|..] == token;
  }

  /** A token always holds a non-empty separator, so it splits into two
      parts or more: asking for one part with a non-empty separator always
      gives none. */
  lemma OnePartNeedsEmptySeparator(authorization: Option<string>, split: string)
    requires split != ""
    ensures SplitAuthToken(authorization, split, 1) == []
  {
  }

  /** With the empty separator and one part, the whole token is the part. */
  lemma WholeToken(token: string)
    requires token != ""
    ensures SplitAuthToken(Some(Bearer + token), "", 1) == [token]
  {
    BearerToken(token);
    assert token[0..0] == "";
  }

  /** With the empty separator and as many parts as the token has
      characters, the parts are its characters. */
  lemma TokenChars(token: string)
    requires token != ""
    ensures SplitAuthToken(Some(Bearer + token), "", |token|) == Chars(token)
  {
    BearerToken(token);
    var parts := SplitToken(token, "", |token|);
    assert IndexOf(token, "") == 0 by {
      assert token[0..0] == "";
    }
    if |token| == 1 {
      assert parts == [token];
      assert Chars(token) == [token];
    } else {
      assert parts == Chars(token);
    }
  }

  /** Parts joined on a one-character separator they do not hold come back
      as they were. */
  lemma SplitJoinedToken(parts: seq<string>, c: char)
    requires |parts| >= 2
    requires forall k :: 0 <= k < |parts| ==> c !in parts[k]
    ensures SplitAuthToken(Some(Bearer + Join(parts, [c])), [c], |parts|) == parts
  {
    var token := Join(parts, [c]);
    BearerToken(token);
    assert token[|parts[0]|] == c;
    IncludesChar(token, c);
    SplitJoin(parts, c);
  }

  /** With a one-character separator that occurs in the token, a result
      comes back exactly when the part count is one more than the number of
      separators. */
  lemma PartCount(token: string, c: char, partsCount: int)
    requires c in token
    ensures SplitAuthToken(Some(Bearer + token), [c], partsCount) != [] <==>
      partsCount == CountChar(token, c) + 1
  {
    BearerToken(token);
    IncludesChar(token, c);
    SplitCount(token, c);
  }
}
