/** The client-side reading of the session token (`utils/jwt.ts`): picking the payload
    segment, turning base64url into base64, and normalising the claims into the user
    the rest of the application sees. Base64 decoding, percent-decoding and JSON
    parsing are a parameter `decode` that yields `None` where any of them throws;
    `parseInt` is a parameter `parseInt` that yields `None` for `NaN`. */
module Jwt {
  import opened Common
  import opened Strings

  /** The `sub` claim: text, a number, or absent. */
  datatype Sub = SubText(text: string) | SubNumber(n: int) | SubAbsent

  /** The decoded payload; `role` and `username` are `None` when absent or not text. */
  datatype Payload = Payload(sub: Sub, username: Option<string>, role: Option<string>)

  /** The user built from the claims. */
  datatype User = User(id: int, username: Option<string>, role: Option<string>)

  /** `token.split('.')[1]`: the second segment; a token without one makes the next
      step throw, which the function turns into `null`. */
  function PayloadSegment(token: string): (r: Option<string>)
    ensures r.None? <==> Count(token, '.') == 0
    ensures r.Some? ==> forall j :: 0 <= j < |r.value| ==> r.value[j] != '.'
  {
    var parts := Split(token, '.');
    SplitCount(token, '.');
    SplitPiecesFree(token, '.');
    if |parts| < 2 then None else Some(parts[1])
  }

  /** The payload segment of a well-formed `header.payload.signature` token. */
  lemma SegmentOfToken(header: string, payload: string, signature: string)
    requires forall j :: 0 <= j < |header| ==> header[j] != '.'
    requires forall j :: 0 <= j < |payload| ==> payload[j] != '.'
    ensures PayloadSegment(header + "." + payload + "." + signature) == Some(payload)
  {
    SplitPrefix(payload, signature, '.');
    assert header + "." + payload + "." + signature == header + ['.'] + (payload + ['.'] + signature);
    SplitPrefix(header, payload + ['.'] + signature, '.');
  }

  /** The two `replace` calls: `-` becomes `+` and `_` becomes `/`. */
  function Base64FromUrl(segment: string): (r: string)
    ensures |r| == |segment|
    ensures forall i :: 0 <= i < |r| ==> r[i] != '-' && r[i] != '_'
    ensures forall i :: 0 <= i < |r| ==>
      r[i] == (if segment[i] == '-' then '+' else if segment[i] == '_' then '/' else segment[i])
  {
    ReplaceAll(ReplaceAll(segment, '-', '+'), '_', '/')
  }

  /** Text already in the standard base64 alphabet passes through unchanged. */
  lemma Base64Unchanged(segment: string)
    requires forall i :: 0 <= i < |segment| ==> segment[i] != '-' && segment[i] != '_'
    ensures Base64FromUrl(segment) == segment
  {
  }

  /** The translation is one-to-one on url-safe text (which carries no `+` or `/`):
      mapping back gives the segment again. */
  lemma Base64FromUrlInvertible(segment: string)
    requires forall i :: 0 <= i < |segment| ==> segment[i] != '+' && segment[i] != '/'
    ensures ReplaceAll(ReplaceAll(Base64FromUrl(segment), '+', '-'), '/', '_') == segment
  {
  }

  /** `decodeJWT`: `None` stands for `null`. */
  function DecodeJwt(token: string, decode: string -> Option<Payload>): (r: Option<Payload>)
    ensures Count(token, '.') == 0 ==> r.None?
    ensures Count(token, '.') > 0 ==> r == decode(Base64FromUrl(PayloadSegment(token).value))
  {
    match PayloadSegment(token)
    case None => None
    case Some(segment) => decode(Base64FromUrl(segment))
  }

  /** A well-formed `header.payload.signature` token decodes to whatever its payload
      segment decodes to, after the base64url translation. */
  lemma DecodeWellFormed(header: string, payload: string, signature: string, decode: string -> Option<Payload>)
    requires forall j :: 0 <= j < |header| ==> header[j] != '.'
    requires forall j :: 0 <= j < |payload| ==> payload[j] != '.'
    ensures DecodeJwt(header + "." + payload + "." + signature, decode) == decode(Base64FromUrl(payload))
  {
    SegmentOfToken(header, payload, signature);
  }

  /** `parseInt(sub) || 1` for text, `sub || 1` otherwise: zero, `NaN` and an absent
      claim fall back to 1. */
  function UserId(sub: Sub, parseInt: string -> Option<int>): (id: int)
    ensures id != 0
    ensures sub.SubNumber? && sub.n != 0 ==> id == sub.n
    ensures sub.SubText? && parseInt(sub.text).Some? && parseInt(sub.text).value != 0 ==> id == parseInt(sub.text).value
    ensures sub.SubAbsent? ==> id == 1
    ensures sub.SubNumber? && sub.n == 0 ==> id == 1
    ensures sub.SubText? && (parseInt(sub.text).None? || parseInt(sub.text).value == 0) ==> id == 1
  {
    match sub
    case SubText(text) =>
      (match parseInt(text)
       case Some(n) => if n == 0 then 1 else n
       case None => 1)
    case SubNumber(n) => if n == 0 then 1 else n
    case SubAbsent => 1
  }

  /** The id is a fixed point: a numeric claim holding an id already produced gives
      that id back. */
  lemma UserIdStable(sub: Sub, parseInt: string -> Option<int>)
    ensures UserId(SubNumber(UserId(sub, parseInt)), parseInt) == UserId(sub, parseInt)
  {
  }

  const RolePrefix := "Role."

  /** A role that starts with `Role.` loses exactly that prefix; any other role, or
      one that is not text, is kept. */
  function NormaliseRole(role: Option<string>): (r: Option<string>)
    ensures role.None? ==> r.None?
    ensures role.Some? && StartsWith(role.value, RolePrefix) ==> r == Some(role.value[|RolePrefix|..])
    ensures role.Some? && !StartsWith(role.value, RolePrefix) ==> r == role
  {
    match role
    case Some(text) => if StartsWith(text, RolePrefix) then Some(text[|RolePrefix|..]) else role
    case None => None
  }

  /** Stripping the prefix undoes adding it, whatever follows it. */
  lemma NormaliseRolePrefixed(rest: string)
    ensures NormaliseRole(Some(RolePrefix + rest)) == Some(rest)
  {
    assert (RolePrefix + rest)[..|RolePrefix|] == RolePrefix;
    assert (RolePrefix + rest)[|RolePrefix|..] == rest;
  }

  /** `extractUserFromToken`: `None` exactly when the token does not decode. */
  function ExtractUser(token: string, decode: string -> Option<Payload>, parseInt: string -> Option<int>): (r: Option<User>)
    ensures r.None? <==> DecodeJwt(token, decode).None?
    ensures r.Some? ==>
      var p := DecodeJwt(token, decode).value;
      r.value.id == UserId(p.sub, parseInt) && r.value.id != 0 &&
      r.value.username == p.username &&
      r.value.role == NormaliseRole(p.role)
  {
    match DecodeJwt(token, decode)
    case None => None
    case Some(p) => Some(User(UserId(p.sub, parseInt), p.username, NormaliseRole(p.role)))
  }
}
