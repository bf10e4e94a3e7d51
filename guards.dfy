/** The request guards of backend/src/auth.py: `decode_token`, and the
    `token_required` / `admin_required` decorators as one decision procedure.
    The JWT library's decoder (signature and expiry checks under the server's
    secret) is a parameter; the request is reduced to its optional
    `Authorization` header. */
module Guards {
  import opened Wrappers
  import opened Values
  import opened Text

  /** A decoded JWT payload: a JSON object. */
  type Payload = map<string, Value>

  /** The two exception families `jwt.decode` raises. */
  datatype JwtError = ExpiredSignature | InvalidToken

  /** What a guard does with a request: answer with an error, or run the wrapped
      handler with `request.current_user` set to the payload. */
  datatype Outcome = Reject(status: int, error: string) | RunHandler(currentUser: Payload)

  const HeaderFormatInvalid := "Invalid authorization header format"
  const TokenMissing := "Authentication token is missing"
  const TokenInvalidOrExpired := "Invalid or expired token"
  const AdminAccessRequired := "Admin access required"

  /** `decode_token`: both exception families become `None`. */
  function DecodeToken(token: string, jwtDecode: string -> Result<Payload, JwtError>): (p: Option<Payload>)
    ensures p.None? <==> jwtDecode(token).Err?
    ensures p.Some? ==> jwtDecode(token) == Ok(p.value)
  {
    match jwtDecode(token)
    case Ok(payload) => Some(payload)
    case Err(_) => None
  }

  /** `auth_header.split(" ")[1]`: the second space-separated field, or `None`
      where Python raises `IndexError`. The scheme word is not inspected. */
  function ExtractToken(header: string): (token: Option<string>)
    ensures token.None? <==> ' ' !in header
    ensures token.Some? ==> ' ' !in token.value
  {
    var parts := Split(header, ' ');
    if |parts| < 2 then None else Some(parts[1])
  }

  /** `payload.get("role") == "admin"`. A payload that passes it is never an
      empty (falsy) object. */
  predicate IsAdmin(payload: Payload): (b: bool)
    ensures b ==> |payload| > 0
  {
    assert "role" in payload ==> "role" in payload.Keys;
    "role" in payload && payload["role"] == Str("admin")
  }

  /** Only the "role" entry decides, and only the string "admin" passes:
      not "Admin", not a list holding "admin". */
  lemma AdminRoleOnly(payload: Payload, role: Value)
    ensures IsAdmin(payload["role" := role]) <==> role == Str("admin")
  {
  }

  /** The body of `token_required` (requireAdmin false) and of `admin_required`
      (requireAdmin true) up to the call of the wrapped handler. */
  function Authorize(header: Option<string>, requireAdmin: bool,
                     jwtDecode: string -> Result<Payload, JwtError>): (r: Outcome)
    ensures header.None? ==> r == Reject(401, TokenMissing)
    ensures header.Some? && ' ' !in header.value ==> r == Reject(401, HeaderFormatInvalid)
    ensures header.Some? && ExtractToken(header.value) == Some("") ==> r == Reject(401, TokenMissing)
    ensures r.Reject? ==> r.status == 401 || (r.status == 403 && requireAdmin)
    ensures r.Reject? && r.status == 403 ==> r.error == AdminAccessRequired
    ensures (header.Some? && ExtractToken(header.value).Some? && ExtractToken(header.value).value != "" &&
             (DecodeToken(ExtractToken(header.value).value, jwtDecode).None? ||
              |DecodeToken(ExtractToken(header.value).value, jwtDecode).value| == 0)) ==>
            r == Reject(401, TokenInvalidOrExpired)
    ensures r.RunHandler? <==>
      header.Some? && ExtractToken(header.value).Some? && ExtractToken(header.value).value != "" &&
      jwtDecode(ExtractToken(header.value).value).Ok? &&
      |jwtDecode(ExtractToken(header.value).value).value| > 0 &&
      (requireAdmin ==> IsAdmin(jwtDecode(ExtractToken(header.value).value).value))
    ensures r.RunHandler? ==> r.currentUser == jwtDecode(ExtractToken(header.value).value).value
  {
    if header.None? then Reject(401, TokenMissing)
    else
      match ExtractToken(header.value)
      case None => Reject(401, HeaderFormatInvalid)
      case Some(token) =>
        if token == "" then Reject(401, TokenMissing)
        else
          match DecodeToken(token, jwtDecode)
          case None => Reject(401, TokenInvalidOrExpired)
          case Some(payload) =>
            // `if not payload`: an empty payload object is falsy as well
            if |payload| == 0 then Reject(401, TokenInvalidOrExpired)
            else if requireAdmin && !IsAdmin(payload) then Reject(403, AdminAccessRequired)
            else RunHandler(payload)
  }

  /** The token is the field after the first space, whatever word precedes it. */
  lemma TokenAfterAnyWord(word: string, rest: string)
    requires ' ' !in word
    ensures ExtractToken(word + " " + rest) == Some(Split(rest, ' ')[0])
  {
    IndexOfAfterWord(word, ' ', rest);
  }

  /** `header` is a space-free word, a space, `token`, and then `rest`, which is
      empty or starts with a space. */
  predicate SecondField(header: string, word: string, token: string, rest: string)
  {
    header == word + " " + token + rest && ' ' !in word && ' ' !in token &&
    (rest == "" || rest[0] == ' ')
  }

  /** After a space-free word and a space, the first field of the tail is a
      second field of the whole. */
  lemma FieldAfterWord(word: string, tail: string)
    requires ' ' !in word
    ensures exists rest :: SecondField(word + " " + tail, word, Split(tail, ' ')[0], rest)
  {
    var token := Split(tail, ' ')[0];
    FirstField(tail, ' ');
    var rest :| tail == token + rest && (rest == "" || rest[0] == ' ');
    assert word + " " + tail == word + " " + token + rest;
    assert SecondField(word + " " + tail, word, token, rest);
  }

  /** The extracted token is exactly the header's second field. */
  lemma TokenIsSecondField(header: string)
    requires ExtractToken(header).Some?
    ensures exists word, rest :: SecondField(header, word, ExtractToken(header).value, rest)
  {
    var i := IndexOf(header, ' ');
    var word, tail := header[..i], header[i + 1..];
    assert header == word + " " + tail by {
      assert header == header[..i] + [header[i]] + header[i + 1..];
    }
    TokenAfterAnyWord(word, tail);
    FieldAfterWord(word, tail);
  }

  /** Conversely, the second field of a header is what is extracted from it. */
  lemma SecondFieldIsToken(header: string, word: string, token: string, rest: string)
    requires SecondField(header, word, token, rest)
    ensures ExtractToken(header) == Some(token)
  {
    TokenAfterAnyWord(word, token + rest);
    assert header == word + " " + (token + rest);
    if rest == "" {
      assert token + rest == token;
    } else {
      IndexOfAfterWord(token, ' ', rest[1..]);
      assert token + [' '] + rest[1..] == token + rest;
    }
  }

  /** The scheme word is never checked: "Basic t" is treated like "Bearer t". */
  lemma SchemeIgnored(scheme: string, rest: string, requireAdmin: bool,
                      jwtDecode: string -> Result<Payload, JwtError>)
    requires ' ' !in scheme
    ensures Authorize(Some(scheme + " " + rest), requireAdmin, jwtDecode)
         == Authorize(Some("Bearer " + rest), requireAdmin, jwtDecode)
  {
    TokenAfterAnyWord(scheme, rest);
    TokenAfterAnyWord("Bearer", rest);
    assert "Bearer" + " " + rest == "Bearer " + rest;
  }

  /** A header that ends right after the scheme word, or has two spaces after it,
      yields an empty token and is answered "Authentication token is missing". */
  lemma EmptyTokenIsMissing(scheme: string, rest: string, requireAdmin: bool,
                            jwtDecode: string -> Result<Payload, JwtError>)
    requires ' ' !in scheme
    ensures Authorize(Some(scheme + " "), requireAdmin, jwtDecode) == Reject(401, TokenMissing)
    ensures Authorize(Some(scheme + "  " + rest), requireAdmin, jwtDecode) == Reject(401, TokenMissing)
  {
    TokenAfterAnyWord(scheme, "");
    assert scheme + " " + "" == scheme + " ";
    TokenAfterAnyWord(scheme, " " + rest);
    assert scheme + " " + (" " + rest) == scheme + "  " + rest;
    IndexOfAfterWord("", ' ', rest);
    assert "" + [' '] + rest == " " + rest;
  }

  /** An expired token and an invalid one get the same answer: only whether the
      decoder succeeded, and with which payload, matters. */
  lemma ErrorKindsCollapse(header: Option<string>, requireAdmin: bool,
                           d1: string -> Result<Payload, JwtError>,
                           d2: string -> Result<Payload, JwtError>)
    requires forall t :: DecodeToken(t, d1) == DecodeToken(t, d2)
    ensures Authorize(header, requireAdmin, d1) == Authorize(header, requireAdmin, d2)
  {
  }

  /** `admin_required` agrees with `token_required` except that it may answer 403
      where `token_required` would run the handler for a non-admin payload. */
  lemma AdminNarrowsToken(header: Option<string>, jwtDecode: string -> Result<Payload, JwtError>)
    ensures Authorize(header, false, jwtDecode).Reject? ==>
      Authorize(header, true, jwtDecode) == Authorize(header, false, jwtDecode)
    ensures Authorize(header, true, jwtDecode).RunHandler? ==>
      Authorize(header, false, jwtDecode) == Authorize(header, true, jwtDecode)
    ensures Authorize(header, true, jwtDecode) == Reject(403, AdminAccessRequired) <==>
      Authorize(header, false, jwtDecode).RunHandler? &&
      !IsAdmin(Authorize(header, false, jwtDecode).currentUser)
  {
  }
}
