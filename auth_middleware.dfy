/**
 * The authentication middleware: the Authorization header must be exactly
 * the word "Bearer", one space and a token; the role middleware lets a
 * request through only when the user's role name is one of the allowed
 * roles.
 */
module AuthMiddleware {
  import opened Results

  /** How the middleware answers a request it stops: the HTTP status and message. */
  datatype Rejection = Rejection(status: int, message: string)

  /** Go's strings.Split on a one-character separator: the pieces between separators, empty ones included. */
  function Split(s: string, sep: char): (parts: seq<string>)
    ensures |parts| >= 1
    ensures forall i | 0 <= i < |parts| :: sep !in parts[i]
  {
    if s == [] then [""]
    else
      var rest := Split(s[1..], sep);
      if s[0] == sep then [""] + rest
      else [[s[0]] + rest[0]] + rest[1..]
  }

  /** The pieces put back together with the separator between them (Go's strings.Join). */
  function Join(parts: seq<string>, sep: char): string
    requires |parts| >= 1
  {
    if |parts| == 1 then parts[0] else parts[0] + [sep] + Join(parts[1..], sep)
  }

  /** Splitting loses nothing: joining the pieces gives the string back. */
  lemma {:induction false} JoinSplit(s: string, sep: char)
    ensures Join(Split(s, sep), sep) == s
  {
    if s != [] {
      var rest := Split(s[1..], sep);
      JoinSplit(s[1..], sep);
      if s[0] != sep {
        var parts := Split(s, sep);
        assert parts[1..] == rest[1..];
        if |rest| == 1 {
          assert parts == [[s[0]] + rest[0]];
        } else {
          assert Join(rest, sep) == rest[0] + [sep] + Join(rest[1..], sep);
        }
      }
    }
  }

  /** A word without the separator, followed by the separator and more, splits off as the first piece. */
  lemma {:induction false} SplitWord(a: string, rest: string, sep: char)
    requires sep !in a
    ensures Split(a + [sep] + rest, sep) == [a] + Split(rest, sep)
    ensures Split(a, sep) == [a]
  {
    if a != [] {
      SplitWord(a[1..], rest, sep);
      assert (a + [sep] + rest)[1..] == a[1..] + [sep] + rest;
      assert [a[0]] + a[1..] == a;
    }
  }

  /** Pieces without the separator come back unchanged from joining and splitting. */
  lemma {:induction false} SplitJoin(parts: seq<string>, sep: char)
    requires |parts| >= 1 && forall i | 0 <= i < |parts| :: sep !in parts[i]
    ensures Split(Join(parts, sep), sep) == parts
  {
    if |parts| == 1 {
      SplitWord(parts[0], [], sep);
    } else {
      SplitJoin(parts[1..], sep);
      SplitWord(parts[0], Join(parts[1..], sep), sep);
    }
  }

  /**
   * The header check of the authentication middleware: an empty header is
   * "missing", a header that does not split on spaces into exactly "Bearer"
   * and one more piece is "invalid"; otherwise the second piece is the token
   * handed to token validation.
   */
  function ParseBearer(header: string): (r: Result<string, Rejection>)
    ensures r.Err? ==> r.error.status == 401
    ensures r == Err(Rejection(401, "missing authorization header")) <==> header == ""
  {
    if header == "" then Err(Rejection(401, "missing authorization header"))
    else
      var parts := Split(header, ' ');
      if |parts| != 2 || parts[0] != "Bearer" then Err(Rejection(401, "invalid authorization header format"))
      else Ok(parts[1])
  }

  /** A header is accepted with token `token` exactly when it is "Bearer", one space, and a token without spaces. */
  lemma ParseBearerExact(header: string, token: string)
    ensures ParseBearer(header) == Ok(token) <==> header == "Bearer " + token && ' ' !in token
  {
    if ParseBearer(header) == Ok(token) {
      var parts := Split(header, ' ');
      JoinSplit(header, ' ');
      assert parts == ["Bearer", token];
    }
    if header == "Bearer " + token && ' ' !in token {
      assert header == Join(["Bearer", token], ' ');
      SplitJoin(["Bearer", token], ' ');
    }
  }

  /** A string holding the separator splits into at least two pieces. */
  lemma {:induction false} SplitAtSeparator(s: string, sep: char)
    requires sep in s
    ensures |Split(s, sep)| >= 2
  {
    if s[0] != sep {
      assert sep in s[1..];
      SplitAtSeparator(s[1..], sep);
    }
  }

  /** A non-empty header without a space is one piece, so it is refused as invalid. */
  lemma NoSpaceRefused(header: string)
    requires header != "" && ' ' !in header
    ensures ParseBearer(header) == Err(Rejection(401, "invalid authorization header format"))
  {
    SplitWord(header, "", ' ');
  }

  /**
   * A header with a space, cut at its first space: it passes exactly when
   * the scheme is "Bearer" (case included) and no further space follows, and
   * the token is then everything after the space, possibly empty; any other
   * scheme or a second space is refused as invalid.
   */
  lemma SchemeThenRest(scheme: string, rest: string)
    requires ' ' !in scheme
    ensures ParseBearer(scheme + " " + rest)
      == if scheme == "Bearer" && ' ' !in rest then Ok(rest)
         else Err(Rejection(401, "invalid authorization header format"))
  {
    SplitWord(scheme, rest, ' ');
    if ' ' in rest {
      SplitAtSeparator(rest, ' ');
    } else {
      SplitWord(rest, "", ' ');
    }
  }

  /**
   * The role middleware: no user in the request context is 401
   * "unauthorized"; a user whose role name is not among the allowed roles is
   * 403 "access denied"; otherwise the request goes on. The role name is
   * taken as given: how it is read out of the request context is not part
   * of this model.
   */
  method CheckRole(userRole: Option<string>, allowedRoles: seq<string>) returns (r: Outcome<Rejection>)
    ensures r.Pass? <==> userRole.Some? && userRole.value in allowedRoles
    ensures r == Fail(Rejection(401, "unauthorized")) <==> userRole.None?
    ensures r == Fail(Rejection(403, "access denied")) <==> userRole.Some? && userRole.value !in allowedRoles
  {
    if userRole.None? {
      return Fail(Rejection(401, "unauthorized"));
    }
    var role := userRole.value;
    var allowed := false;
    var i := 0;
    while i < |allowedRoles|
      invariant 0 <= i <= |allowedRoles|
      invariant allowed <==> role in allowedRoles[..i]
      invariant allowed ==> role in allowedRoles
    {
      if role == allowedRoles[i] {
        allowed := true;
        break;
      }
      i := i + 1;
    }
    assert !allowed ==> allowedRoles[..i] == allowedRoles;
    if !allowed {
      return Fail(Rejection(403, "access denied"));
    }
    return Pass;
  }
}
