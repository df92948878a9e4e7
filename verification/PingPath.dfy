/** Ping URLs: `/<token>`, `/<token>/fail` and `/<token>/<exit code>`. */
module PingPath {
  import opened Common
  import opened Text

  /** The unreserved characters of section 2.3 of RFC 3986. */
  predicate Unreserved(c: char) {
    'a' <= c <= 'z' || 'A' <= c <= 'Z' || '0' <= c <= '9' || c in "-_.~"
  }

  predicate AcceptableToken(s: string) {
    |s| >= 16 && forall i | 0 <= i < |s| :: Unreserved(s[i])
  }

  /** In ASCII codes: letters, digits, `-`, `.`, `_` and `~`, sixteen of them or more. */
  lemma TokenAlphabet(s: string)
    ensures AcceptableToken(s) <==>
              |s| >= 16 && forall i | 0 <= i < |s| ::
                var c := s[i] as int;
                65 <= c <= 90 || 97 <= c <= 122 || 48 <= c <= 57 || c == 45 || c == 46 || c == 95 || c == 126
  {
    forall i | 0 <= i < |s|
      ensures var c := s[i] as int;
              Unreserved(s[i]) <==>
                65 <= c <= 90 || 97 <= c <= 122 || 48 <= c <= 57 || c == 45 || c == 46 || c == 95 || c == 126
    {
      UnreservedCodes(s[i]);
    }
  }

  lemma UnreservedCodes(ch: char)
    ensures var c := ch as int;
            Unreserved(ch) <==>
              65 <= c <= 90 || 97 <= c <= 122 || 48 <= c <= 57 || c == 45 || c == 46 || c == 95 || c == 126
  {
    assert ch in "-_.~" <==> ch == '-' || ch == '_' || ch == '.' || ch == '~';
  }

  datatype Outcome = Outcome(failed: bool, exitCode: int)
  datatype Ping = Ping(token: string, outcome: Outcome)

  function ParsePath(path: string): Option<Ping> {
    var segments := Split(Trim(path, IsSlash));
    var token := segments[0];
    if token == "" || !AcceptableToken(token) then None
    else if |segments| == 1 then Some(Ping(token, Outcome(false, 0)))
    else if |segments| == 2 then
      if segments[1] == "fail" then Some(Ping(token, Outcome(true, 0)))
      else
        var code := Atoi(segments[1]);
        if code.None? || code.value < 0 then None
        else Some(Ping(token, Outcome(code.value != 0, code.value)))
    else None
  }

  /** What one suffix means; the empty suffix is no suffix at all. */
  predicate Means(suffix: string, o: Outcome) {
    || (suffix == "" && o == Outcome(false, 0))
    || (suffix == "/fail" && o == Outcome(true, 0))
    || (suffix != "" && suffix[0] == '/' && suffix != "/fail"
        && Atoi(suffix[1..]) == Some(o.exitCode) && o.exitCode >= 0 && o.failed == (o.exitCode != 0))
  }

  lemma TokenHasNoSlash(t: string)
    requires AcceptableToken(t)
    ensures '/' !in t && Trimmed(t, IsSlash)
  {}

  lemma ParseIsSound(path: string)
    requires ParsePath(path).Some?
    ensures var p := ParsePath(path).value;
            && AcceptableToken(p.token)
            && p.token <= Trim(path, IsSlash)
            && Means(Trim(path, IsSlash)[|p.token|..], p.outcome)
  {
    var s := Trim(path, IsSlash);
    var segments := Split(s);
    var token := segments[0];
    JoinSplit(s);
    if |segments| == 2 {
      assert Join(segments[1..]) == segments[1];
      assert s == token + "/" + segments[1];
      assert s[|token|..] == "/" + segments[1];
      assert s[|token|..][1..] == segments[1];
    }
  }

  lemma SuffixHasOneSlash(suffix: string, o: Outcome)
    requires suffix != "" && Means(suffix, o)
    ensures suffix == "/" + suffix[1..] && '/' !in suffix[1..]
  {}

  lemma SplitTwo(token: string, tail: string)
    requires '/' !in token && '/' !in tail
    ensures Split(token + "/" + tail) == [token, tail]
  {
    SplitFirst(token, tail);
    SplitFirst(tail, "");
  }

  lemma SplitSuffix(token: string, suffix: string, o: Outcome)
    requires AcceptableToken(token) && Means(suffix, o)
    ensures Split(token + suffix) == if suffix == "" then [token] else [token, suffix[1..]]
  {
    TokenHasNoSlash(token);
    if suffix == "" {
      assert token + suffix == token;
      SplitFirst(token, "");
    } else {
      SuffixHasOneSlash(suffix, o);
      assert token + suffix == token + "/" + suffix[1..];
      SplitTwo(token, suffix[1..]);
    }
  }

  lemma ParseIsComplete(path: string, token: string, suffix: string, o: Outcome)
    requires AcceptableToken(token) && Trim(path, IsSlash) == token + suffix && Means(suffix, o)
    ensures ParsePath(path) == Some(Ping(token, o))
  {
    SplitSuffix(token, suffix, o);
    if suffix != "" {
      assert suffix == "/" + suffix[1..];
    }
  }

  /** The paths accepted are exactly an acceptable token with one of the three suffixes, under any
      number of leading and trailing slashes, and the parse is what the suffix means. */
  lemma ParsesExactly(path: string, p: Ping)
    ensures ParsePath(path) == Some(p) <==>
              && AcceptableToken(p.token)
              && p.token <= Trim(path, IsSlash)
              && Means(Trim(path, IsSlash)[|p.token|..], p.outcome)
  {
    var s := Trim(path, IsSlash);
    if ParsePath(path) == Some(p) {
      ParseIsSound(path);
    }
    if AcceptableToken(p.token) && p.token <= s && Means(s[|p.token|..], p.outcome) {
      assert s == p.token + s[|p.token|..];
      ParseIsComplete(path, p.token, s[|p.token|..], p.outcome);
    }
  }

  lemma ShapeParses(lead: string, token: string, suffix: string, trail: string, o: Outcome)
    requires AcceptableToken(token) && All(lead, IsSlash) && All(trail, IsSlash)
    requires Means(suffix, o) && (suffix == "" || suffix[|suffix| - 1] != '/')
    ensures ParsePath(lead + (token + suffix) + trail) == Some(Ping(token, o))
  {
    TokenHasNoSlash(token);
    TrimPadded(lead, token + suffix, trail, IsSlash);
    ParseIsComplete(lead + (token + suffix) + trail, token, suffix, o);
  }

  /** The three shapes parse back for every acceptable token and every exit code, with any number
      of slashes around them. */
  lemma ShapesRoundTrip(lead: string, token: string, code: nat, trail: string)
    requires AcceptableToken(token) && All(lead, IsSlash) && All(trail, IsSlash) && code <= MaxInt
    ensures ParsePath(lead + (token + "") + trail) == Some(Ping(token, Outcome(false, 0)))
    ensures ParsePath(lead + (token + "/fail") + trail) == Some(Ping(token, Outcome(true, 0)))
    ensures ParsePath(lead + (token + ("/" + Itoa(code))) + trail) == Some(Ping(token, Outcome(code != 0, code)))
  {
    ShapeParses(lead, token, "", trail, Outcome(false, 0));
    ShapeParses(lead, token, "/fail", trail, Outcome(true, 0));
    var suffix := "/" + Itoa(code);
    AtoiOfItoa(code);
    assert suffix[1..] == Itoa(code) && IsDigit(suffix[1]) && IsDigit(suffix[|suffix| - 1]);
    ShapeParses(lead, token, suffix, trail, Outcome(code != 0, code));
  }
}
