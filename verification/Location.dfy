/** Tenant addresses: the URL-like form and its parser. */
module Location {
  import opened Bytes

  datatype TenantLocation =
    | Path(path: string)
    | Resp3(endpoint: string, auth: Option<(string, string)>)
    | Http(baseUrl: string)

  datatype LocationError = BadCredentials | MissingEndpoint | UnknownScheme

  /** The first position of `c`, or the length. */
  function Find(s: string, c: char): (i: nat)
    ensures i <= |s| && c !in s[..i] && (i < |s| ==> s[i] == c)
  {
    if s == "" || s[0] == c then 0 else
      var i := 1 + Find(s[1..], c);
      assert s[..i] == [s[0]] + s[1..][..i - 1];
      i
  }

  /** The last position of `c`, or the length. */
  function FindLast(s: string, c: char): (i: nat)
    ensures i <= |s| && (i < |s| ==> s[i] == c && c !in s[i + 1..]) && (i == |s| <==> c !in s)
  {
    if s == "" then 0
    else if s[|s| - 1] == c then |s| - 1
    else
      var i := FindLast(s[..|s| - 1], c);
      if i == |s| - 1 then |s| else
        assert s[i + 1..] == s[..|s| - 1][i + 1..] + [s[|s| - 1]];
        i
  }

  predicate Contains(s: string, part: string) {
    part <= s || (s != "" && Contains(s[1..], part))
  }

  function ParseResp3(rest: string): Result<TenantLocation, LocationError> {
    var at := FindLast(rest, '@');
    if at == |rest| then
      if rest == "" then Err(MissingEndpoint) else Ok(Resp3(rest, None))
    else
      var creds, endpoint := rest[..at], rest[at + 1..];
      var colon := Find(creds, ':');
      if colon == |creds| then Err(BadCredentials)
      else if endpoint == "" then Err(MissingEndpoint)
      else Ok(Resp3(endpoint, Some((creds[..colon], creds[colon + 1..]))))
  }

  function ParseLocation(s: string): Result<TenantLocation, LocationError> {
    if "file://" <= s then Ok(Path(s[|"file://"|..]))
    else if "resp3://" <= s then ParseResp3(s[|"resp3://"|..])
    else if "http://" <= s || "https://" <= s then Ok(Http(s))
    else if Contains(s, "://") then Err(UnknownScheme)
    else Ok(Path(s))
  }

  function PrintResp3(endpoint: string, auth: Option<(string, string)>): string {
    match auth
    case None => endpoint
    case Some((user, pass)) => user + ":" + pass + "@" + endpoint
  }

  /** What the grammar can carry: passwords are free, endpoints and user names are not. */
  predicate Printable(endpoint: string, auth: Option<(string, string)>) {
    endpoint != "" && '@' !in endpoint && (auth.Some? ==> ':' !in auth.value.0)
  }

  lemma {:induction false} FindIs(s: string, c: char, i: nat)
    requires i < |s| && s[i] == c && c !in s[..i]
    ensures Find(s, c) == i
  {
    if i > 0 {
      assert s[..i][0] == s[0] && s[1..][..i - 1] == s[..i][1..];
      FindIs(s[1..], c, i - 1);
    }
  }

  lemma {:induction false} FindLastIs(s: string, c: char, i: nat)
    requires i < |s| && s[i] == c && c !in s[i + 1..]
    ensures FindLast(s, c) == i
  {
    var n := |s| - 1;
    if i < n {
      assert s[i + 1..][n - i - 1] == s[n] && s[..n][i + 1..] == s[i + 1..][..n - i - 1];
      FindLastIs(s[..n], c, i);
    }
  }

  lemma PrintedParses(endpoint: string, auth: Option<(string, string)>)
    requires Printable(endpoint, auth)
    ensures ParseResp3(PrintResp3(endpoint, auth)) == Ok(Resp3(endpoint, auth))
  {
    var s := PrintResp3(endpoint, auth);
    match auth
    case None =>
      assert FindLast(s, '@') == |s|;
    case Some((user, pass)) =>
      var creds := user + ":" + pass;
      var at := |creds|;
      assert s[at + 1..] == endpoint && s[..at] == creds;
      FindLastIs(s, '@', at);
      assert creds[..|user|] == user && creds[|user| + 1..] == pass;
      FindIs(creds, ':', |user|);
  }

  lemma ParsedIsPrinted(rest: string)
    requires ParseResp3(rest).Ok?
    ensures var loc := ParseResp3(rest).value;
            loc.Resp3? && Printable(loc.endpoint, loc.auth) && rest == PrintResp3(loc.endpoint, loc.auth)
  {
    var at := FindLast(rest, '@');
    if at < |rest| {
      var creds, endpoint := rest[..at], rest[at + 1..];
      var colon := Find(creds, ':');
      assert rest == creds + "@" + endpoint;
      assert creds == creds[..colon] + ":" + creds[colon + 1..];
    }
  }

  /** The grammar is unambiguous: parsing and printing invert each other, on exactly these locations. */
  lemma Unambiguous(s: string, endpoint: string, auth: Option<(string, string)>)
    ensures ParseLocation(s) == Ok(Resp3(endpoint, auth)) <==>
            Printable(endpoint, auth) && s == "resp3://" + PrintResp3(endpoint, auth)
  {
    if "resp3://" <= s {
      var rest := s[|"resp3://"|..];
      assert s == "resp3://" + rest;
      assert s[0] == 'r';
      if ParseResp3(rest).Ok? {
        ParsedIsPrinted(rest);
      }
    }
    if Printable(endpoint, auth) && s == "resp3://" + PrintResp3(endpoint, auth) {
      assert s[0] == 'r';
      assert s[|"resp3://"|..] == PrintResp3(endpoint, auth);
      PrintedParses(endpoint, auth);
    }
  }

  // ---- the other answers ------------------------------------------------------------------

  ghost predicate Occurs(s: string, part: string) {
    exists before, after :: s == before + part + after
  }

  lemma OccursHere(s: string, before: string, part: string, after: string)
    requires s == before + part + after
    ensures Occurs(s, part)
  {
  }

  lemma {:induction false} ContainsIsOccurs(s: string, part: string)
    ensures Contains(s, part) <==> Occurs(s, part)
  {
    if Contains(s, part) {
      if part <= s {
        OccursHere(s, "", part, s[|part|..]);
      } else {
        ContainsIsOccurs(s[1..], part);
        var before, after :| s[1..] == before + part + after;
        assert s == [s[0]] + s[1..];
        OccursHere(s, [s[0]] + before, part, after);
      }
    }
    if Occurs(s, part) {
      var before, after :| s == before + part + after;
      if before == "" {
        assert s == part + after;
      } else {
        assert s[1..] == before[1..] + part + after;
        ContainsIsOccurs(s[1..], part);
      }
    }
  }

  lemma SchemeOccurs(s: string, name: string)
    requires name + "://" <= s
    ensures Occurs(s, "://")
  {
    OccursHere(s, name, "://", s[|name| + 3..]);
  }

  /** Which addresses are paths, which are left to HTTP, and which have a scheme nobody knows. */
  lemma OtherSchemes(s: string, p: string)
    ensures ParseLocation(s) == Ok(Path(p)) <==> s == "file://" + p || (s == p && !Occurs(s, "://"))
    ensures ParseLocation(s) == Ok(Http(p)) <==> s == p && ("http://" <= s || "https://" <= s)
    ensures ParseLocation(s) == Err(UnknownScheme) <==>
            && Occurs(s, "://")
            && !("file://" <= s) && !("resp3://" <= s) && !("http://" <= s) && !("https://" <= s)
  {
    hide Contains, Occurs, Find, FindLast;
    ContainsIsOccurs(s, "://");
    assert s == "file://" + p <==> "file://" <= s && s[|"file://"|..] == p;
    var http := "http://" <= s || "https://" <= s;
    if "file://" <= s {
      assert s[0] == 'f';
      assert "file" + "://" == "file://";
      SchemeOccurs(s, "file");
    } else if "resp3://" <= s {
      assert s[0] == 'r';
      assert "resp3" + "://" == "resp3://";
      SchemeOccurs(s, "resp3");
      if ParseResp3(s[|"resp3://"|..]).Ok? {
        ParsedIsPrinted(s[|"resp3://"|..]);
      }
    } else if http {
      assert s[0] == 'h';
      assert "http" + "://" == "http://" && "https" + "://" == "https://";
      SchemeOccurs(s, if "http://" <= s then "http" else "https");
    }
  }

  /** The last at sign divides an address in one way only. */
  lemma LastAt(rest: string, creds: string, endpoint: string)
    requires rest == creds + "@" + endpoint && '@' !in endpoint
    ensures FindLast(rest, '@') == |creds| < |rest| && rest[..|creds|] == creds && rest[|creds| + 1..] == endpoint
  {
    hide FindLast;
    assert rest[|creds|] == '@' && rest[|creds| + 1..] == endpoint && rest[..|creds|] == creds;
    FindLastIs(rest, '@', |creds|);
  }

  lemma HasColon(creds: string)
    ensures Find(creds, ':') == |creds| <==> ':' !in creds
  {
    var colon := Find(creds, ':');
    if colon == |creds| {
      assert creds[..colon] == creds;
    }
  }

  /**
   A `resp3://` address with something before its last at sign is refused when that has no colon,
   and otherwise when nothing follows; one without an at sign is refused when it is empty.
   */
  lemma RefusedAddresses(creds: string, endpoint: string)
    requires '@' !in endpoint
    ensures ':' !in creds ==> ParseLocation("resp3://" + (creds + "@" + endpoint)) == Err(BadCredentials)
    ensures ':' in creds && endpoint == "" ==>
              ParseLocation("resp3://" + (creds + "@" + endpoint)) == Err(MissingEndpoint)
    ensures ParseLocation("resp3://") == Err(MissingEndpoint)
  {
    hide FindLast, Find;
    var rest := creds + "@" + endpoint;
    var s := "resp3://" + rest;
    LastAt(rest, creds, endpoint);
    HasColon(creds);
    assert s[0] == 'r' && s[|"resp3://"|..] == rest;
    assert "resp3://"[0] == 'r' && "resp3://"[|"resp3://"|..] == "";
    assert FindLast("", '@') == 0;
  }
}
