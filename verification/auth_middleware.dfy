/**
  The request gates in front of the protected routes. The authentication
  gate reads the Authorization header, demands the form "Bearer <token>"
  (exactly two parts when split at single spaces), validates the token and
  copies its user_id and role claims into the request context. The role
  gate lets a request through only when the context's role is the required
  one. A gate's verdict either continues the chain with a context or aborts
  it with a status code; no verdict does both.
  Token validation is a given function (signature and expiry checks are
  outside the model).
 */
module AuthMiddleware {
  import opened Model

  /** A decoded claim value: a string, or a number such as the user id. */
  datatype ClaimValue = Text(s: string) | Number(n: int)

  type Claims = map<string, ClaimValue>

  /** The request context: a key set to a missing claim holds None. */
  type Context = map<string, Option<ClaimValue>>

  datatype Verdict = Next(ctx: Context) | Abort(status: int)

  const StatusUnauthorized: int := 401
  const StatusForbidden: int := 403

  /** The parts joined back with the separator between them. */
  function Join(parts: seq<string>, sep: char): string
    requires |parts| >= 1
    decreases |parts|
  {
    if |parts| == 1 then parts[0]
    else Join(parts[..|parts| - 1], sep) + [sep] + parts[|parts| - 1]
  }

  /** The pieces of `s` between occurrences of `sep`, in order. */
  function Split(s: string, sep: char): (parts: seq<string>)
    ensures |parts| >= 1
    decreases |s|
  {
    if s == [] then [""]
    else
      var front := Split(s[..|s| - 1], sep);
      var c := s[|s| - 1];
      if c == sep then front + [""]
      else front[..|front| - 1] + [front[|front| - 1] + [c]]
  }

  /** No piece of a split contains the separator. */
  lemma {:induction false} SplitPiecesFree(s: string, sep: char)
    ensures forall k :: 0 <= k < |Split(s, sep)| ==> sep !in Split(s, sep)[k]
    decreases |s|
  {
    if s != [] {
      var init := s[..|s| - 1];
      SplitPiecesFree(init, sep);
    }
  }

  /** Adding an empty last piece adds one separator to the joined text. */
  lemma JoinEmptyPiece(parts: seq<string>, sep: char)
    requires |parts| >= 1
    ensures Join(parts + [""], sep) == Join(parts, sep) + [sep]
  {
    assert (parts + [""])[..|parts|] == parts;
  }

  /** Extending the last piece by a character extends the joined text by it. */
  lemma JoinExtendLast(parts: seq<string>, c: char, sep: char)
    requires |parts| >= 1
    ensures Join(parts[..|parts| - 1] + [parts[|parts| - 1] + [c]], sep) == Join(parts, sep) + [c]
  {
    var longer := parts[..|parts| - 1] + [parts[|parts| - 1] + [c]];
    if |parts| > 1 {
      var init := parts[..|parts| - 1];
      assert longer[..|longer| - 1] == init;
      assert Join(longer, sep) == Join(init, sep) + [sep] + (parts[|parts| - 1] + [c]);
    }
  }

  /** Joining the pieces of a split back with the separator gives the text split. */
  lemma {:induction false} SplitJoin(s: string, sep: char)
    ensures Join(Split(s, sep), sep) == s
    decreases |s|
  {
    if s != [] {
      var init := s[..|s| - 1];
      var c := s[|s| - 1];
      SplitJoin(init, sep);
      assert s == init + [c];
      if c == sep {
        JoinEmptyPiece(Split(init, sep), sep);
      } else {
        JoinExtendLast(Split(init, sep), c, sep);
      }
    }
  }

  /** Splitting text without the separator gives the text itself. */
  lemma {:induction false} SplitWithoutSeparator(s: string, sep: char)
    requires sep !in s
    ensures Split(s, sep) == [s]
    decreases |s|
  {
    if s != [] {
      SplitWithoutSeparator(s[..|s| - 1], sep);
      assert s == s[..|s| - 1] + [s[|s| - 1]];
    }
  }

  /** Appending a character other than the separator extends the last piece. */
  lemma SplitSnoc(s: string, c: char, sep: char)
    requires c != sep
    ensures Split(s + [c], sep) ==
      Split(s, sep)[..|Split(s, sep)| - 1] + [Split(s, sep)[|Split(s, sep)| - 1] + [c]]
  {
    assert (s + [c])[..|s + [c]| - 1] == s;
  }

  /** Text without the separator extends the last piece of a split. */
  lemma {:induction false} SplitExtend(s: string, t: string, sep: char)
    requires sep !in t
    ensures Split(s + t, sep) ==
      Split(s, sep)[..|Split(s, sep)| - 1] + [Split(s, sep)[|Split(s, sep)| - 1] + t]
    decreases |t|
  {
    if t == [] {
      assert s + t == s;
      var f := Split(s, sep);
      assert f[|f| - 1] + t == f[|f| - 1];
      assert f == f[..|f| - 1] + [f[|f| - 1]];
    } else {
      var t' := t[..|t| - 1];
      var c := t[|t| - 1];
      assert t == t' + [c];
      assert s + t == (s + t') + [c];
      SplitExtend(s, t', sep);
      SplitSnoc(s + t', c, sep);
      var f := Split(s, sep);
      var front := Split(s + t', sep);
      assert front[..|front| - 1] == f[..|f| - 1];
      assert front[|front| - 1] + [c] == f[|f| - 1] + t;
    }
  }

  /** Splitting "a<sep>b" with no separator in a or b gives exactly [a, b]. */
  lemma SplitTwo(a: string, b: string, sep: char)
    requires sep !in a && sep !in b
    ensures Split(a + [sep] + b, sep) == [a, b]
  {
    SplitWithoutSeparator(a, sep);
    assert (a + [sep])[..|a + [sep]| - 1] == a;
    assert Split(a + [sep], sep) == [a, ""];
    SplitExtend(a + [sep], b, sep);
    assert [""][0] + b == b;
  }

  /** The token of a header of the form "Bearer <token>", split at single spaces. */
  function BearerToken(header: string): Option<string>
  {
    var parts := Split(header, ' ');
    if |parts| != 2 || parts[0] != "Bearer" then None else Some(parts[1])
  }

  /** A header the split accepts is "Bearer ", then the token, which has no space. */
  lemma BearerTokenShape(header: string)
    requires BearerToken(header).Some?
    ensures |header| >= 7 && header[..7] == "Bearer " && ' ' !in header[7..]
    ensures BearerToken(header).value == header[7..]
  {
    var parts := Split(header, ' ');
    SplitJoin(header, ' ');
    SplitPiecesFree(header, ' ');
    assert parts[..1] == [parts[0]];
    assert header == Join(parts, ' ') == parts[0] + [' '] + parts[1];
    assert ' ' !in parts[1];
  }

  /** Every header "Bearer " followed by a space-free token is accepted with that token. */
  lemma BearerTokenOfShape(header: string)
    requires |header| >= 7 && header[..7] == "Bearer " && ' ' !in header[7..]
    ensures BearerToken(header) == Some(header[7..])
  {
    assert header == "Bearer" + [' '] + header[7..];
    SplitTwo("Bearer", header[7..], ' ');
  }

  /**
    A header is well formed exactly when it is "Bearer " followed by a
    token without spaces, and the token is that remainder.
   */
  lemma BearerTokenIff(header: string)
    ensures BearerToken(header).Some? <==>
      |header| >= 7 && header[..7] == "Bearer " && ' ' !in header[7..]
    ensures BearerToken(header).Some? ==> BearerToken(header).value == header[7..]
  {
    if BearerToken(header).Some? {
      BearerTokenShape(header);
    }
    if |header| >= 7 && header[..7] == "Bearer " && ' ' !in header[7..] {
      BearerTokenOfShape(header);
    }
  }

  /** The value a context key takes from a claim: the claim, or None when it is absent. */
  function ClaimOf(claims: Claims, key: string): Option<ClaimValue>
  {
    if key in claims then Some(claims[key]) else None
  }

  /**
    The authentication gate. It aborts with 401 when the header is empty,
    when it is not of the form "Bearer <token>", or when the token does not
    validate; otherwise it continues with user_id and role set from the
    token's claims.
   */
  function Authenticate(header: string, validate: string -> Option<Claims>, ctx: Context): (v: Verdict)
    ensures header == "" ==> v == Abort(StatusUnauthorized)
    ensures BearerToken(header).None? ==> v == Abort(StatusUnauthorized)
    ensures BearerToken(header).Some? && validate(BearerToken(header).value).None? ==>
      v == Abort(StatusUnauthorized)
    ensures v.Abort? ==> v.status == StatusUnauthorized
    ensures BearerToken(header).Some? && validate(BearerToken(header).value).Some? ==> v.Next?
    ensures v.Next? ==>
      && BearerToken(header).Some?
      && validate(BearerToken(header).value).Some?
      && var claims := validate(BearerToken(header).value).value;
         v.ctx == ctx["user_id" := ClaimOf(claims, "user_id")]["role" := ClaimOf(claims, "role")]
  {
    if header == "" then Abort(StatusUnauthorized)
    else
      var parts := Split(header, ' ');
      if |parts| != 2 || parts[0] != "Bearer" then Abort(StatusUnauthorized)
      else
        match validate(parts[1])
        case None => Abort(StatusUnauthorized)
        case Some(claims) =>
          Next(ctx["user_id" := ClaimOf(claims, "user_id")]["role" := ClaimOf(claims, "role")])
  }

  /** The role gate: it continues only when a role is set and equals the required one, else aborts with 403. */
  function RequireRole(required: string, ctx: Context): (v: Verdict)
    ensures v.Next? <==> "role" in ctx && ctx["role"] == Some(Text(required))
    ensures v.Next? ==> v.ctx == ctx
    ensures v.Abort? ==> v.status == StatusForbidden
  {
    if "role" !in ctx || ctx["role"] != Some(Text(required)) then Abort(StatusForbidden)
    else Next(ctx)
  }

  /**
    Authentication followed by the role gate lets a request through exactly
    when the header is "Bearer " and a space-free token that validates to
    claims whose role is the required one.
   */
  lemma AuthenticatedRole(header: string, validate: string -> Option<Claims>, ctx: Context, required: string)
    ensures
      (match Authenticate(header, validate, ctx)
       case Next(c) => RequireRole(required, c).Next?
       case Abort(_) => false)
      <==>
      && |header| >= 7 && header[..7] == "Bearer " && ' ' !in header[7..]
      && validate(header[7..]).Some?
      && ClaimOf(validate(header[7..]).value, "role") == Some(Text(required))
  {
    BearerTokenIff(header);
  }
}
